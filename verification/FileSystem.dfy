/** The file system itself: `FileSystem` over a disk whose reads and writes succeed. */
module SimpleFs {
  import opened Wrappers
  import opened Bytes
  import opened Layout
  import opened Volume
  import opened Blocks
  import opened FileImage
  import opened Directory

  class FileSystem {
    var disk: seq<Block>
    ghost var view: View

    /** `Disk::write`: the first bytes of the sector are replaced, the rest is kept. */
    method DiskWrite(buffer: seq<byte>, sector: u32) returns (n: u32)
      requires |buffer| <= BLOCKSIZE && sector < |disk|
      modifies this`disk
      ensures disk == old(disk)[sector := Overlay(old(disk)[sector], 0, buffer)]
      ensures |buffer| == BLOCKSIZE ==> disk == old(disk)[sector := buffer]
      ensures n == |buffer|
    {
      disk := disk[sector := Overlay(disk[sector], 0, buffer)];
      assert |buffer| == BLOCKSIZE ==> disk[sector] == buffer;
      n := |buffer|;
    }

    method AllocBlock() returns (r: FsResult<u32>)
      requires Inv(disk, view)
      modifies this
      ensures Inv(disk, view) && UsedKept(old(disk), old(view), disk)
      ensures r == if old(view.free) == [] then Err(ExhaustedBlocks) else Ok(old(view.free)[|old(view.free)| - 1])
      ensures r.Err? ==> disk == old(disk) && view == old(view)
      ensures r.Ok? ==> view == Lend(old(view)) && disk[r.value] == ZERO_BLOCK
      ensures TableKept(old(disk), disk)
    {
      hide Inv, FreeOnDisk, OnlyListTouched, SbOf, PutSb, ToWords, ToBytes, Overlay, Lend;
      ListHead(disk, view);
      var head := SbOf(disk[SUPERBLOCK_ADDR]).freelist_start;
      if head == UNUSED_BLOCKADDR {
        return Err(ExhaustedBlocks);
      }
      var words: WordBlock := ToWords(disk[head]);
      var slot := LastUsedSlot(words);
      match slot {
        case Some(index) =>
          TakeSlotPops(disk, view.free, head, index);
          var blockno := words[index + 1];
          words := words[index + 1 := UNUSED_BLOCKADDR];
          var _ := DiskWrite(ToBytes(words), head);
          var _ := DiskWrite(Zeros(BLOCKSIZE), blockno);
          AllocKeeps(old(disk), view, disk);
          view := Lend(view);
          r := Ok(blockno);
        case None =>
          TakeHeadPops(disk, view.free, head);
          var newHead := words[0];
          var _ := DiskWrite(Zeros(BLOCKSIZE), head);
          var sbBuf := disk[SUPERBLOCK_ADDR];
          sbBuf := PutSb(sbBuf, SbOf(sbBuf).(freelist_start := newHead));
          var _ := DiskWrite(sbBuf, SUPERBLOCK_ADDR);
          AllocKeeps(old(disk), view, disk);
          view := Lend(view);
          r := Ok(head);
      }
    }

    /** `free_block` on any block but the superblock.  A list is left exactly if the block was not
        free, and then it is the old one with the block on top. */
    method FreeBlock(blockno: u32)
      requires Inv(disk, view) && 0 < blockno < FS_SIZE
      modifies this
      ensures |disk| == FS_SIZE && SbKept(old(disk), disk)
      ensures (exists st :: FreeOnDisk(disk, st)) <==> blockno !in old(view.free)
      ensures blockno !in old(view.free) ==>
                FreeOnDisk(disk, old(view.free) + [blockno]) && OnlyListTouched(old(disk), old(view.free) + [blockno], disk)
      ensures if blockno in old(view.own) && old(view.own)[blockno] == Caller
              then Inv(disk, view) && view == Release(old(view), blockno) && UsedKept(old(disk), view, disk)
              else view == old(view)
    {
      hide Inv, UsedKept, FreeOnDisk, SbOf, PutSb, ToWords, ToBytes, Overlay, Release, OnlyListTouched;
      ListHead(disk, view);
      var sbBuf := disk[SUPERBLOCK_ADDR];
      var head := SbOf(sbBuf).freelist_start;
      if head == UNUSED_BLOCKADDR {
        HeadFreed(disk, view.free, head, blockno);
        sbBuf := PutSb(sbBuf, SbOf(sbBuf).(freelist_start := blockno));
        var _ := DiskWrite(sbBuf, SUPERBLOCK_ADDR);
        assert [head] + ZeroWords(BLOCKWORDS - 1) == ZeroWords(BLOCKWORDS);
        var _ := DiskWrite(ToBytes(ZeroWords(BLOCKWORDS)), blockno);
      } else {
        var words: WordBlock := ToWords(disk[head]);
        var pos := FirstUnusedSlot(words);
        if pos.Some? {
          SlotFreed(disk, view.free, head, pos.value, blockno);
          words := words[pos.value + 1 := blockno];
          var _ := DiskWrite(ToBytes(words), head);
        } else {
          HeadFreed(disk, view.free, head, blockno);
          sbBuf := PutSb(sbBuf, SbOf(sbBuf).(freelist_start := blockno));
          var _ := DiskWrite(sbBuf, SUPERBLOCK_ADDR);
          words := [head] + ZeroWords(BLOCKWORDS - 1);
          var _ := DiskWrite(ToBytes(words), blockno);
        }
      }
      if blockno in view.own && view.own[blockno] == Caller {
        OwnedIsNotFree(old(disk), view, blockno);
        FreeKeeps(old(disk), view, disk, blockno);
        view := Release(view, blockno);
      }
    }

    method BmapOrAlloc(inode: Inode, blockno: nat, ghost inum: nat) returns (r: FsResult<u32>, inode': Inode)
      requires Inv(disk, view) && blockno < NDIRECT
      requires inum < NUM_INODES && view.table[inum] == inode && inode.type_ != UNUSED
      modifies this
      ensures Inv(disk, view) && OthersKept(old(disk), old(view), disk, view, inum) && TableKept(old(disk), disk)
      ensures r == if inode.blocks[blockno] != 0 then Ok(inode.blocks[blockno])
                   else if old(view.free) == [] then Err(ExhaustedBlocks)
                   else Ok(old(view.free)[|old(view.free)| - 1])
      ensures view == if r.Ok? && inode.blocks[blockno] == 0 then Attach(old(view), inum, blockno) else old(view)
      ensures inode' == view.table[inum] == if r.Ok? then inode.(blocks := inode.blocks[blockno := r.value]) else inode
      ensures r.Ok? ==> 0 < r.value < |disk|
      ensures r.Err? || inode.blocks[blockno] != 0 ==> disk == old(disk)
      ensures Img(disk, inode') == old(Img(disk, inode))
    {
      hide Inv, Lend;
      inode' := inode;
      var addr := inode.blocks[blockno];
      if addr == UNUSED_BLOCKADDR {
        r := AllocBlock();
        if r.Ok? {
          inode' := inode.(blocks := inode.blocks[blockno := r.value]);
          AttachKeeps(old(disk), old(view), disk, inum, blockno);
          view := Attach(old(view), inum, blockno);
          OwnedIsNotFree(disk, view, r.value);
        } else {
          return;
        }
      }
      MappedBlock(disk, view, inum, blockno);
      r := Ok(inode'.blocks[blockno]);
    }

    /** The loop of `read`: block `q + j` fills bytes from `512 * j` on. */
    method ReadRest(inode: Inode, dst: seq<byte>, q: nat, len: nat) returns (r: FsResult<nat>, buf: seq<byte>)
      requires BLOCKSIZE < len <= |dst| && q < NDIRECT
      requires q + (len + BLOCKSIZE - 1) / BLOCKSIZE <= NDIRECT || FirstUnmapped(inode.blocks, q + 1, NDIRECT) < NDIRECT
      requires forall k :: 0 <= k < NDIRECT ==> inode.blocks[k] < |disk|
      ensures |buf| == |dst|
      ensures q + 1 <= Min(q + (len + BLOCKSIZE - 1) / BLOCKSIZE, NDIRECT)
      ensures r == LoopRead(inode.blocks, q, Min(q + (len + BLOCKSIZE - 1) / BLOCKSIZE, NDIRECT), len)
      ensures r.Ok? ==> q + (len + BLOCKSIZE - 1) / BLOCKSIZE <= NDIRECT
      ensures r.Ok? ==> forall i :: 0 <= i < |dst| ==>
                buf[i] == if BLOCKSIZE <= i < len then Img(disk, inode)[q + i / BLOCKSIZE][i % BLOCKSIZE] else dst[i]
    {
      hide Img, FirstUnmapped;
      buf := dst;
      var offset, j := BLOCKSIZE * (q + 1), 1;
      ghost var img, end := Img(disk, inode), q + (len + BLOCKSIZE - 1) / BLOCKSIZE;
      while BLOCKSIZE * j < len
        invariant 1 <= j && q + j <= NDIRECT && |buf| == |dst| && BLOCKSIZE * (j - 1) < len
        invariant BLOCKSIZE * j < len ==> offset == BLOCKSIZE * (q + j)
        invariant forall k :: q + 1 <= k < q + j ==> inode.blocks[k] != 0
        invariant forall i :: 0 <= i < |dst| ==>
                    buf[i] == if BLOCKSIZE <= i < len && i < BLOCKSIZE * j
                              then img[q + i / BLOCKSIZE][i % BLOCKSIZE] else dst[i]
      {
        ReadGoesOn(inode.blocks, q, j, len);
        var addr := inode.blocks[offset / BLOCKSIZE];
        if addr == UNUSED_BLOCKADDR {
          return Err(BlockNotMapped(offset / BLOCKSIZE)), buf;
        }
        var n := Min(len - BLOCKSIZE * j, BLOCKSIZE);
        buf := Overlay(buf, BLOCKSIZE * j, disk[addr][..n]);
        offset := offset + n;
        j := j + 1;
      }
      assert end == q + j;
      r := Ok(len);
    }

    /** The blocks of a read: the first one, then the loop unless the offset has passed `len`. */
    method ReadBlocks(inode: Inode, dst: seq<byte>, offset0: nat, len: nat) returns (r: FsResult<nat>, buf: seq<byte>)
      requires len <= |dst| && BlocksInBounds(inode.blocks, offset0, len)
      requires forall q :: 0 <= q < NDIRECT ==> inode.blocks[q] < |disk|
      ensures |buf| == |dst| && r == BlocksRead(inode.blocks, offset0, len)
      ensures r.Ok? ==>
                && ReadEnd(offset0, len) <= NDIRECT
                && forall i :: 0 <= i < |dst| ==> buf[i] == ReadByte(Img(disk, inode), dst, offset0, len, i)
    {
      hide Img, FirstUnmapped, BlocksRead, LoopRead, ReadByte, Overlay, ReadEnd;
      BlocksReadSteps(inode.blocks, offset0, len);
      buf := dst;
      var q, rem := offset0 / BLOCKSIZE, offset0 % BLOCKSIZE;
      var addr := inode.blocks[q];
      if addr == UNUSED_BLOCKADDR {
        return Err(BlockNotMapped(q)), buf;
      }
      var n := Min(len, BLOCKSIZE - rem);
      buf := Overlay(buf, 0, disk[addr][rem..rem + n]);
      ghost var first := buf;
      var offset := offset0 + (BLOCKSIZE - rem);
      if offset >= len {
        r := Ok(len);
      } else {
        // the loop fills the buffer from byte 512 on, whatever the offset was
        r, buf := ReadRest(inode, buf, q, len);
      }
      if r.Ok? { ReadBytes(Img(disk, inode), dst, first, offset0, len); }
    }

    /** `read`: every offset and length, and every error. */
    method Read(inode: Inode, dst: seq<byte>, offset0: u32) returns (r: FsResult<nat>, buf: seq<byte>)
      requires |dst| < 0x1_0000_0000 && ReadInBounds(inode, |dst|, offset0)
      requires forall q :: 0 <= q < NDIRECT ==> inode.blocks[q] < |disk|
      ensures r == ReadResult(inode, |dst|, offset0)
      ensures |buf| == |dst|
      ensures r.Ok? ==>
                && r.value <= |dst| && offset0 < MAXBYTES && ReadEnd(offset0, r.value) <= NDIRECT
                && forall i :: 0 <= i < |dst| ==> buf[i] == ReadByte(Img(disk, inode), dst, offset0, r.value, i)
    {
      hide Img, FirstUnmapped, ReadByte, ReadEnd;
      buf := dst;
      if inode.type_ != FILE && inode.type_ != DIRECTORY {
        return Err(TypeMismatch), buf;
      }
      var len: nat := |dst|;
      if offset0 > inode.size || (offset0 + len) % 0x1_0000_0000 < offset0 {
        return Err(ReadTooLarge), buf;
      }
      if offset0 + len > inode.size {
        len := inode.size - offset0;
      }
      r, buf := ReadBlocks(inode, dst, offset0, len);
    }

    /** One block of a write: map it if need be, then overlay `piece` at `at`. */
    method PutPiece(inode: Inode, q: nat, at: nat, piece: seq<byte>, ghost inum: nat) returns (r: FsResult<nat>, inode': Inode)
      requires Inv(disk, view) && q < NDIRECT && at + |piece| <= BLOCKSIZE
      requires inum < NUM_INODES && view.table[inum] == inode && inode.type_ != UNUSED
      modifies this
      ensures Inv(disk, view) && OthersKept(old(disk), old(view), disk, view, inum) && TableKept(old(disk), disk)
      ensures view.table[inum] == inode' && Extends(inode, inode')
      ensures view.dirty == old(view.dirty) || view.dirty == old(view.dirty) + {inum}
      ensures r == if inode.blocks[q] == 0 && old(view.free) == [] then Err(ExhaustedBlocks)
                   else Ok(if at == 0 then |piece| else BLOCKSIZE)
      ensures |view.free| == |old(view.free)| - (if r.Ok? && inode.blocks[q] == 0 then 1 else 0)
      ensures r.Ok? ==> inode'.blocks == inode.blocks[q := inode'.blocks[q]] && inode'.blocks[q] != 0
      ensures r.Err? ==> inode' == inode && disk == old(disk) && view == old(view)
      ensures r.Ok? ==> Img(disk, inode') == old(Img(disk, inode))[q := Overlay(old(Img(disk, inode))[q], at, piece)]
    {
      hide Inv, OthersKept, FirstUnmapped, Img, TableKept;
      var m: FsResult<u32>;
      m, inode' := BmapOrAlloc(inode, q, inum);
      if m.Err? {
        return Err(m.error), inode';
      }
      ghost var d1 := disk;
      var blockaddr := m.value;
      var n;
      if at != 0 {
        var tmp := Overlay(disk[blockaddr], at, piece);
        WriteMapped(disk, view, inum, q, tmp);
        n := DiskWrite(tmp, blockaddr);
      } else {
        WriteMapped(disk, view, inum, q, Overlay(disk[blockaddr], 0, piece));
        n := DiskWrite(piece, blockaddr);
      }
      OthersKeptTrans(old(disk), old(view), d1, view, disk, view, inum);
      TableKeptTrans(old(disk), d1, disk);
      r := Ok(n);
    }

    /** The loop of `write`: `src[offset..]` in pieces of 512, until it is done or a block is missing. */
    method PutRest(inode: Inode, src: seq<byte>, offset0: nat, ghost inum: nat) returns (ok: bool, inode': Inode)
      requires Inv(disk, view) && |src| <= MAXBYTES
      requires inum < NUM_INODES && view.table[inum] == inode && inode.type_ != UNUSED && inum in view.dirty
      modifies this
      ensures Inv(disk, view) && OthersKept(old(disk), old(view), disk, view, inum) && TableKept(old(disk), disk)
      ensures view.table[inum] == inode' && Extends(inode, inode') && view.dirty == old(view.dirty)
      ensures ok <==> Needs(inode.blocks, |src|, offset0) <= |old(view.free)|
      ensures ChunksEnd(inode.blocks, old(Img(disk, inode)), src, offset0, |old(view.free)|,
                        inode'.blocks, Img(disk, inode'), |view.free|)
    {
      hide Inv, OthersKept, Img, Overlay, TableKept, ChunksTo, ChunksEnd, Needs;
      inode' := inode;
      var offset := offset0;
      ghost var img0 := Img(disk, inode);
      OthersKeptRefl(disk, view, inum);
      ChunksStart(inode.blocks, img0, src, offset0, |view.free|);
      while offset < |src|
        invariant Inv(disk, view) && OthersKept(old(disk), old(view), disk, view, inum) && TableKept(old(disk), disk)
        invariant view.table[inum] == inode' && Extends(inode, inode') && view.dirty == old(view.dirty)
        invariant ChunksTo(inode.blocks, img0, src, offset0, |old(view.free)|, inode'.blocks, Img(disk, inode'), offset, |view.free|)
        decreases |src| - offset
      {
        ghost var d1, v1, ino1 := disk, view, inode';
        var q := offset / BLOCKSIZE;
        var chunk := src[offset..Min(offset + BLOCKSIZE, |src|)];
        var m;
        m, inode' := PutPiece(inode', q, 0, chunk, inum);
        OthersKeptTrans(old(disk), old(view), d1, v1, disk, view, inum);
        TableKeptTrans(old(disk), d1, disk);
        if m.Err? {
          ChunksOver(inode.blocks, img0, src, offset0, |old(view.free)|, inode'.blocks, Img(disk, inode'), offset, |view.free|);
          return false, inode';
        }
        ChunksNext(inode.blocks, img0, src, offset0, |old(view.free)|, ino1.blocks, Img(d1, ino1), offset, |v1.free|, inode'.blocks[q]);
        offset := offset + m.value;
      }
      ChunksOver(inode.blocks, img0, src, offset0, |old(view.free)|, inode'.blocks, Img(disk, inode'), offset, |view.free|);
      ok := true;
    }

    /** The blocks of a write: the first one, then the loop unless the offset has passed `src.len()`. */
    method WriteBlocks(inode: Inode, src: seq<byte>, offset0: nat, ghost inum: nat)
      returns (ok: bool, offset: nat, inode': Inode)
      requires Inv(disk, view) && offset0 < MAXBYTES && offset0 + |src| <= MAXBYTES
      requires inum < NUM_INODES && view.table[inum] == inode && inode.type_ != UNUSED && inum in view.dirty
      modifies this
      ensures Inv(disk, view) && OthersKept(old(disk), old(view), disk, view, inum) && TableKept(old(disk), disk)
      ensures view.table[inum] == inode' && view.dirty == old(view.dirty) && Extends(inode, inode')
      ensures ok <==> WriteNeeds(inode.blocks, |src|, offset0) <= |old(view.free)|
      ensures ok ==> offset == Max(Advanced(|src|, offset0), |src|)
      ensures inode.blocks[offset0 / BLOCKSIZE] == 0 && old(view.free) == [] ==>
                !ok && inode' == inode && disk == old(disk) && view == old(view)
      ensures Carried(inode, old(Img(disk, inode)), src, |old(view.free)|, offset0, inode'.blocks, Img(disk, inode'), |view.free|)
    {
      hide Inv, OthersKept, Img, Overlay, TableKept, WriteNeeds, ChunksTo, ChunksEnd, Needs, Carried, WriteFirst, Advanced, Extends;
      ghost var img0 := Img(disk, inode);
      FirstPiece(img0, src, offset0);
      var q, at := offset0 / BLOCKSIZE, offset0 % BLOCKSIZE;
      var m;
      m, inode' := PutPiece(inode, q, at, src[..Min(|src|, BLOCKSIZE - at)], inum);
      if m.Err? {
        NotCarried(inode, img0, src, offset0);
        return false, offset0, inode';
      }
      offset := offset0 + m.value;
      ghost var d1, v1, ino1 := disk, view, inode';
      ExtendsAt(inode, ino1, q);
      if offset >= |src| {
        ChunksStart(ino1.blocks, Img(disk, ino1), src, offset, |v1.free|);
        ChunksOver(ino1.blocks, Img(disk, ino1), src, offset, |v1.free|, ino1.blocks, Img(disk, ino1), offset, |v1.free|);
        ok := true;
      } else {
        ok, inode' := PutRest(inode', src, offset, inum);
        OthersKeptTrans(old(disk), old(view), d1, v1, disk, view, inum);
        TableKeptTrans(old(disk), d1, disk);
        ExtendsTrans(inode, ino1, inode');
        offset := |src|;
      }
      CarriedOut(inode, img0, src, |old(view.free)|, offset0, ino1.blocks[q], ino1.blocks, |v1.free|,
        inode'.blocks, Img(disk, inode'), |view.free|);
    }

    /** `write`: every offset and length, and every error.  If the blocks run out on the way, the
        write has been carried out for a prefix of `src`, with the size unchanged. */
    method Write(inode: Inode, src: seq<byte>, offset0: u32, ghost inum: nat) returns (r: FsResult<nat>, inode': Inode)
      requires Inv(disk, view) && inum < NUM_INODES && view.table[inum] == inode
      requires |src| < 0x1_0000_0000 && (offset0 < MAXBYTES || offset0 > inode.size)
      modifies this
      ensures Inv(disk, view) && OthersKept(old(disk), old(view), disk, view, inum) && TableKept(old(disk), disk)
      ensures view.table[inum] == inode' && view.dirty == old(view.dirty) + if inode' == inode then {} else {inum}
      ensures r == WriteResult(inode, |old(view.free)|, |src|, offset0)
      ensures r.Err? && r.error != ExhaustedBlocks ==> inode' == inode && disk == old(disk) && view == old(view)
      ensures r.Ok? || r == Err(ExhaustedBlocks) ==>
                && offset0 < MAXBYTES && offset0 + |src| <= MAXBYTES
                && Carried(inode, old(Img(disk, inode)), src, |old(view.free)|, offset0, inode'.blocks, Img(disk, inode'), |view.free|)
      ensures inode'.size == if r.Ok? then WriteSize(inode.size, |src|, offset0) else inode.size
      ensures r == Err(ExhaustedBlocks) && inode.blocks[offset0 / BLOCKSIZE] == 0 && old(view.free) == [] ==>
                inode' == inode && disk == old(disk) && view == old(view)
      ensures Extends(inode, inode'.(size := inode.size))
    {
      hide Inv, OthersKept, Img, WriteNeeds, TableKept, Carried;
      inode' := inode;
      OthersKeptRefl(disk, view, inum);
      if inode.type_ != FILE && inode.type_ != DIRECTORY {
        return Err(TypeMismatch), inode;
      }
      var len: nat := |src|;
      if (offset0 + len) % 0x1_0000_0000 < offset0 || offset0 > inode.size {
        return Err(WriteTooLarge), inode;
      }
      if len + offset0 > MAXBYTES {
        return Err(WriteTooLarge), inode;
      }
      TouchKeeps(disk, view, inum, inode);
      view := Touch(view, inum, inode);
      ghost var v1 := view;
      var ok, offset;
      ok, offset, inode' := WriteBlocks(inode, src, offset0, inum);
      OthersKeptTrans(old(disk), old(view), old(disk), v1, disk, view, inum);
      if ok && offset > inode'.size {
        // an early return adds the length; the loop leaves the offset at the end
        inode' := inode'.(size := if Advanced(len, offset0) >= len then inode'.size + len else offset);
      }
      WrittenBack(old(disk), old(view), disk, view, inum, inode');
      view := Written(old(view), view, inum, inode');
      r := if ok then Ok(len) else Err(ExhaustedBlocks);
    }

    // ----- inodes -----

    /** `alloc_inode`: the least unused number.  The state stays consistent if the inode maps no
        block yet, which is how every caller starts one. */
    method AllocInode(inode: Inode) returns (r: FsResult<u32>)
      requires Inv(disk, view) && inode.type_ != UNUSED
      modifies this
      ensures r == Err(ExhaustedInodes) <==> forall i :: 0 <= i < NUM_INODES ==> old(view.table)[i].type_ != UNUSED
      ensures r.Err? ==> r.error == ExhaustedInodes && disk == old(disk) && view == old(view)
      ensures r.Ok? ==>
                && r.value < NUM_INODES && old(view.table)[r.value].type_ == UNUSED
                && (forall i :: 0 <= i < r.value ==> old(view.table)[i].type_ != UNUSED)
                && 1 + r.value < |old(disk)| && disk == old(disk)[1 + r.value := PutInode(old(disk)[1 + r.value], inode)]
      ensures r.Ok? && inode.blocks == ZeroWords(NDIRECT) ==>
                && Inv(disk, view) && view == Sync(old(view), r.value, inode) && view.dirty == old(view.dirty)
                && OthersKept(old(disk), old(view), disk, view, r.value)
      ensures inode.blocks != ZeroWords(NDIRECT) ==> view == old(view)
    {
      hide Inv, InodeAt, PutInode, Slots, OthersKept, SbOf;
      TableEntries(disk, view);
      var inodeStart := SbOf(disk[SUPERBLOCK_ADDR]).inode_start;
      var blockno := inodeStart;
      while blockno < NUM_INODES / INODES_PER_BLOCK + 1
        invariant INODE_START <= blockno <= NUM_INODES + 1
        invariant forall i :: 0 <= i < blockno - 1 ==> view.table[i].type_ != UNUSED
        invariant disk == old(disk) && view == old(view)
      {
        var block := disk[blockno];
        var i := blockno - inodeStart;
        if InodeAt(disk, i).type_ == UNUSED {
          var _ := DiskWrite(PutInode(block, inode), blockno);
          if inode.blocks == ZeroWords(NDIRECT) {
            ClaimSlots(view, i, inode);
            SyncKeeps(old(disk), view, i, inode);
            view := Sync(view, i, inode);
          }
          return Ok(i);
        }
        blockno := blockno + 1;
      }
      r := Err(ExhaustedInodes);
    }

    method ReadInode(inum: u32) returns (r: Inode)
      requires |disk| == FS_SIZE && SbOf(disk[0]).inode_start == INODE_START
      requires inum <= NUM_INODES
      ensures r == InodeAt(disk, inum)
      ensures inum < NUM_INODES && Inv(disk, view) && inum !in view.dirty ==> r == view.table[inum]
    {
      hide InodeOf, Slots, Partition, FreeOnDisk, ToWords, SbOf;
      var inodeStart := SbOf(disk[SUPERBLOCK_ADDR]).inode_start;
      r := InodeOf(ToWords(disk[IBlock(inum, inodeStart)]));
    }

    /** `update_inode`; `mkfs` also runs it before there is a superblock. */
    method UpdateInode(inum: u32, inode: Inode)
      requires |disk| == FS_SIZE && IBlock(inum, SbOf(disk[0]).inode_start) < FS_SIZE
      modifies this
      ensures var b := IBlock(inum, SbOf(old(disk)[0]).inode_start);
              disk == old(disk)[b := PutInode(old(disk)[b], inode)]
      ensures if old(Inv(disk, view)) && inum < NUM_INODES && old(view.table)[inum] == inode
              then Inv(disk, view) && view == Sync(old(view), inum, inode)
                   && OthersKept(old(disk), old(view), disk, view, inum) && Img(disk, inode) == old(Img(disk, inode))
              else view == old(view)
    {
      hide Slots, Partition, FreeOnDisk, TableOnDisk, PutInode, InodeAt, SbOf, OthersKept;
      var b := IBlock(inum, SbOf(disk[SUPERBLOCK_ADDR]).inode_start);
      if Inv(disk, view) && inum < NUM_INODES && view.table[inum] == inode {
        assert view.table[inum := inode] == view.table;
        SameSlots(view, inum);
        SyncKeeps(disk, view, inum, inode);
        view := Sync(view, inum, inode);
      }
      var _ := DiskWrite(PutInode(disk[b], inode), b);
    }

    // ----- directories -----

    method DirLookup(dir: Inode, name: seq<byte>) returns (r: FsResult<(u32, nat)>)
      requires IsDir(dir) && forall q :: 0 <= q < NDIRECT ==> dir.blocks[q] < |disk|
      ensures r == LookupResult(Entries(Img(disk, dir), Count(dir)), name)
    {
      hide Img, ReadByte, ReadResult, EntryBytes, UpToNul, Lookup;
      ghost var img, es := Img(disk, dir), Entries(Img(disk, dir), Count(dir));
      var offset := 0;
      ghost var k := 0;
      while offset < dir.size
        invariant offset == DIRENT * k && k <= Count(dir)
        invariant forall j :: 0 <= j < k ==> es[j].name != name || es[j].inum == UNUSED_INUM
      {
        ReadEntryOk(dir, k);
        var _, buf := Read(dir, Zeros(DIRENT), offset);
        ReadEntry(img, dir, k, buf);
        var entry := DecodeEntry(buf);
        if entry.inum != UNUSED_INUM {
          // equal length up to the first NUL, and equal bytes
          if entry.name == name {
            LookupIs(es, name, Some(k));
            return Ok((entry.inum, offset));
          }
        }
        offset, k := offset + DIRENT, k + 1;
      }
      LookupIs(es, name, None);
      r := Err(NotFound);
    }

    /** The search of `dir_add` for an entry that is not in use. */
    method FreeSlot(dir: Inode) returns (r: Option<nat>)
      requires IsDir(dir) && forall q :: 0 <= q < NDIRECT ==> dir.blocks[q] < |disk|
      ensures var es := Entries(Img(disk, dir), Count(dir));
              FreeEntry(es) == if r.Some? then r.value else |es|
      ensures r.Some? ==> r.value < Count(dir)
    {
      hide Img, ReadByte, ReadResult, EntryBytes, UpToNul;
      ghost var img, es := Img(disk, dir), Entries(Img(disk, dir), Count(dir));
      var offset, k := 0, 0;
      while offset < dir.size
        invariant offset == DIRENT * k && k <= Count(dir)
        invariant forall j :: 0 <= j < k ==> es[j].inum != UNUSED_INUM
      {
        ReadEntryOk(dir, k);
        var n, tmp := Read(dir, Zeros(DIRENT), offset);
        assert n == Ok(DIRENT);
        ReadEntry(img, dir, k, tmp);
        if DecodeEntry(tmp).inum == UNUSED_INUM {
          FreeEntryIs(es, k);
          return Some(k);
        }
        offset, k := offset + DIRENT, k + 1;
      }
      FreeEntryIs(es, k);
      r := None;
    }

    /** `dir_add`: the new entry takes the place of the first unused one, or else goes to the end. */
    method DirAdd(dir: Inode, name: seq<byte>, target: u32, ghost inum: nat) returns (r: FsResult<()>, dir': Inode)
      requires Inv(disk, view) && inum < NUM_INODES && view.table[inum] == dir && IsDir(dir)
      requires |name| <= DIRNAME_SIZE
      modifies this
      ensures Inv(disk, view) && OthersKept(old(disk), old(view), disk, view, inum) && TableKept(old(disk), disk)
      ensures view.table[inum] == dir' && view.dirty <= old(view.dirty) + {inum}
      ensures var es := old(Entries(Img(disk, dir), Count(dir)));
              && r == DirAddResult(dir, es, |old(view.free)|, name)
              && (r.Ok? ==> EntryPut(dir, es, |old(view.free)|, Entry(target, name), dir', Img(disk, dir'), |view.free|))
      ensures r.Err? ==> dir' == dir && disk == old(disk) && view == old(view)
    {
      hide Inv, OthersKept, Img, ReadByte, ReadResult, WriteResult, WriteNeeds, EncodeEntry, Stored, Entries, Lookup, WriteSize,
        IsDir, FreeEntry, Advanced, Carried, EntryPut, TableKept;
      dir' := dir;
      DirSize(dir);
      ghost var img, es := Img(disk, dir), Entries(Img(disk, dir), Count(dir));
      DirInRange(disk, view, inum);
      OthersKeptRefl(disk, view, inum);
      PutResult(dir, FreeEntry(es), |view.free|);
      var found := DirLookup(dir, name);
      if found.Ok? {
        return Err(EntryExists), dir;
      }
      var slot := FreeSlot(dir);
      var offset := if slot.Some? then DIRENT * slot.value else dir.size;
      ghost var k := FreeEntry(es);
      var w;
      w, dir' := Write(dir, EncodeEntry(target, name), offset, inum);
      if w.Err? {
        return Err(w.error), dir';
      }
      PutDone(dir, img, |old(view.free)|, k, Entry(target, name), dir', Img(disk, dir'), |view.free|);
      r := Ok(());
    }

    /** `dir_add` on a directory without unused entries: the new one goes to the end. */
    method DirAppend(dir: Inode, name: seq<byte>, target: u32, ghost inum: nat) returns (r: FsResult<()>, dir': Inode)
      requires Inv(disk, view) && inum < NUM_INODES && view.table[inum] == dir && IsDir(dir)
      requires |name| <= DIRNAME_SIZE && Live(Entries(Img(disk, dir), Count(dir)))
      modifies this
      ensures Inv(disk, view) && OthersKept(old(disk), old(view), disk, view, inum) && TableKept(old(disk), disk)
      ensures view.table[inum] == dir' && view.dirty <= old(view.dirty) + {inum}
      ensures Appended(dir, old(Entries(Img(disk, dir), Count(dir))), |old(view.free)|, Entry(target, name), r,
                       dir', Img(disk, dir'), |view.free|)
      ensures r.Err? ==> dir' == dir && disk == old(disk) && view == old(view)
    {
      hide Inv, OthersKept, Img, Stored, Entries, Lookup, IsDir, FreeEntry, DirBlocks, StaysDir, Overhangs, PutEntry, TableKept;
      DirSize(dir);
      ghost var es := Entries(Img(disk, dir), Count(dir));
      LiveAppend(es, Entry(target, Stored(|es|, name)));
      AddNeeds(dir, |es|, |es| + 1);
      r, dir' := DirAdd(dir, name, target, inum);
      if r.Ok? { DirSize(dir'); }
    }

    /** A run of `dir_add` calls, up to the first that fails. */
    method AddAll(dir: Inode, adds: seq<Entry>, ghost inum: nat) returns (r: FsResult<()>, dir': Inode, ghost n: nat)
      requires Inv(disk, view) && inum < NUM_INODES && view.table[inum] == dir && IsDir(dir)
      requires Live(Entries(Img(disk, dir), Count(dir)))
      requires forall i :: 0 <= i < |adds| ==> |adds[i].name| <= DIRNAME_SIZE && adds[i].inum != UNUSED_INUM
      modifies this
      ensures Inv(disk, view) && OthersKept(old(disk), old(view), disk, view, inum) && TableKept(old(disk), disk)
      ensures view.table[inum] == dir'
      ensures var es := old(Entries(Img(disk, dir), Count(dir)));
              && n <= |adds| && AddsDone(dir, es, |old(view.free)|, adds, n, dir', Img(disk, dir'), |view.free|)
              && (r.Ok? <==> n == |adds|) && (r.Ok? <==> AllAddable(dir, es, |old(view.free)|, adds))
              && (r == Err(EntryExists) ==> Lookup(AfterAdds(es, adds[..n]), adds[n].name).Some?)
    {
      hide Inv, OthersKept, Img, Lookup, IsDir, Live, Count, TableKept, AddsDone, AllAddable, DirBlocks, NewNames;
      DirSize(dir);
      ghost var es := Entries(Img(disk, dir), Count(dir));
      dir', n := dir, 0;
      OthersKeptRefl(disk, view, inum);
      AddsNone(dir, es, |view.free|, adds, Img(disk, dir));
      hide Entries;
      var i := 0;
      while i < |adds|
        invariant 0 <= i == n <= |adds| && Inv(disk, view) && OthersKept(old(disk), old(view), disk, view, inum)
        invariant TableKept(old(disk), disk) && view.table[inum] == dir'
        invariant AddsDone(dir, es, |old(view.free)|, adds, i, dir', Img(disk, dir'), |view.free|)
      {
        ghost var d1, v1, dir1 := disk, view, dir';
        AddsLive(es, adds, i);
        SoFar(dir, es, |old(view.free)|, adds, i, dir', Img(disk, dir'), |view.free|);
        r, dir' := DirAppend(dir', adds[i].name, adds[i].inum, inum);
        OthersKeptTrans(old(disk), old(view), d1, v1, disk, view, inum);
        TableKeptTrans(old(disk), d1, disk);
        AddsNext(dir, es, |old(view.free)|, adds, i, dir1, Img(d1, dir1), |v1.free|, r, dir', Img(disk, dir'), |view.free|);
        if r.Err? {
          return;
        }
        i, n := i + 1, n + 1;
      }
      AddsAll(dir, es, |old(view.free)|, adds, dir', Img(disk, dir'), |view.free|);
      r := Ok(());
    }

    /** A run of additions and then a lookup of one of the names: its own target, at its own offset,
        exactly if the name fits its entry. */
    method AddAllThenLookup(dir: Inode, adds: seq<Entry>, i: nat, ghost inum: nat)
      returns (r: FsResult<()>, found: FsResult<(u32, nat)>)
      requires Inv(disk, view) && inum < NUM_INODES && view.table[inum] == dir && IsDir(dir) && i < |adds|
      requires Live(Entries(Img(disk, dir), Count(dir)))
      requires forall j :: 0 <= j < |adds| ==> |adds[j].name| <= DIRNAME_SIZE && adds[j].inum != UNUSED_INUM
      modifies this
      ensures r.Ok? ==>
                (found == Ok((adds[i].inum, DIRENT * (Count(dir) + i))) <==> Fits(Count(dir) + i, adds[i].name))
    {
      hide Inv, OthersKept, Img, Stored, Entries, Lookup, IsDir, DirBlocks, NewNames, AfterAdds, Live, Count, Fits, LookupResult,
        AddsDone, AllAddable;
      DirSize(dir);
      ghost var es := Entries(Img(disk, dir), Count(dir));
      var dir';
      ghost var n;
      r, dir', n := AddAll(dir, adds, inum);
      SoFar(dir, es, |old(view.free)|, adds, n, dir', Img(disk, dir'), |view.free|);
      DirInRange(disk, view, inum);
      found := DirLookup(dir', adds[i].name);
      if r.Ok? {
        assert adds[..|adds|] == adds;
        AddedIsFound(es, adds, i);
      }
    }

    /** `namex`: only the root directory can be searched. */
    method Namex(path: seq<byte>, name: seq<byte>) returns (r: FsResult<u32>)
      requires Inv(disk, view) && 0 !in view.dirty && IsDir(view.table[0])
      ensures r == if path != ['/' as int] then Err(NotFound)
                   else match Find(Entries(Img(disk, view.table[0]), Count(view.table[0])), name)
                        case None => Err(NotFound)
                        case Some(inum) => Ok(inum)
    {
      hide IsDir, Entries, Lookup, Img;
      if path != ['/' as int] {
        return Err(NotFound);
      }
      DirInRange(disk, view, 0);
      TableEntries(disk, view);
      var inode := ReadInode(ROOT_INUM);
      var l := DirLookup(inode, name);
      r := if l.Ok? then Ok(l.value.0) else Err(l.error);
    }
  }
}
