/** The image builder: format a disk, copy files into it, and read them back. */
module Mkfs {
  import opened Wrappers
  import opened Bytes
  import opened Layout
  import opened Volume
  import opened Blocks
  import opened FileImage
  import opened Directory
  import opened SimpleFs

  datatype File = File(name: seq<byte>, data: seq<byte>)

  const DOT: seq<byte> := ['.' as int]
  const DOTDOT: seq<byte> := ['.' as int, '.' as int]
  const SLASH: seq<byte> := ['/' as int]

  const DOTS: seq<Entry> := [Entry(ROOT_INUM, DOT), Entry(ROOT_INUM, DOTDOT)]

  /** What is added to the root directory for `files`: file `i` is inode `i + 1`. */
  function FileAdds(files: seq<File>): (adds: seq<Entry>)
    requires |files| < NUM_INODES
    ensures |adds| == |files| && forall i :: 0 <= i < |files| ==> adds[i] == Entry(i + 1, files[i].name)
  {
    seq(|files|, i requires 0 <= i < |files| => Entry(i + 1, files[i].name))
  }

  /** The root directory of an image holding `files`. */
  ghost function RootEntries(files: seq<File>): (es: seq<Entry>)
    requires |files| < NUM_INODES
    ensures |es| == |files| + 2
  {
    AfterAdds(DOTS, FileAdds(files))
  }

  /** The fields of an inode that the kernel finds its disk by: device 1, and no device number. */
  predicate OnRootDisk(ino: Inode) { ino.device == 1 && ino.major == 0 && ino.minor == 0 }

  /** The superblock of a formatted disk; only its free list ever changes. */
  ghost predicate Formatted(d: seq<Block>) {
    && |d| > 0
    && var sb := SbOf(d[0]);
       sb.size == 0 && sb.nblocks == 1000 && sb.ninodes == 256 && sb.inode_start == 1
  }

  lemma StaysFormatted(d: seq<Block>, d': seq<Block>)
    requires Formatted(d) && SbKept(d, d')
    ensures Formatted(d')
  {
    hide SbOf;
  }

  lemma SbKeptTrans(d: seq<Block>, d1: seq<Block>, d2: seq<Block>)
    requires SbKept(d, d1) && SbKept(d1, d2)
    ensures SbKept(d, d2)
  {
    hide SbOf;
  }

  lemma SbKeptOf(d: seq<Block>, d': seq<Block>)
    requires (|d'| == |d| > 0 && d'[0] == d[0]) || TableKept(d, d')
    ensures SbKept(d, d')
  {
    hide SbOf;
  }

  /** The inode is a regular file on the root disk, holds exactly these bytes, and every block a read
      visits is mapped. */
  ghost predicate HoldsData(img: Image, ino: Inode, data: seq<byte>) {
    && ino.type_ == 1 && OnRootDisk(ino) && ino.size == |data| <= MAXBYTES
    && (forall k :: 0 <= k < |data| ==> ByteAt(img, k) == data[k])
    && (forall q :: 0 <= q < NDIRECT && (q == 0 || BLOCKSIZE * q < |data|) ==> ino.blocks[q] != 0)
  }

  /** The blocks of a file; an empty file still has one. */
  function FileBlocks(n: nat): nat { Max(1, (n + BLOCKSIZE - 1) / BLOCKSIZE) }

  function DataBlocksOf(files: seq<File>): nat {
    if files == [] then 0
    else DataBlocksOf(files[..|files| - 1]) + FileBlocks(|files[|files| - 1].data|)
  }

  function BlocksUsed(files: seq<File>): nat {
    DirBlocks(DIRENT * (|files| + 2)) + DataBlocksOf(files)
  }

  /** The disk is a consistent file system that holds `files`, all of them in the root
      directory, and after them the data of `extra` (at most one file) not yet in it. */
  ghost predicate HoldsStaged(d: seq<Block>, v: View, files: seq<File>, extra: seq<seq<byte>>) {
    && Inv(d, v) && v.dirty == {} && Formatted(d)
    && |files| + |extra| < NUM_INODES
    && IsDir(v.table[0]) && v.table[0].type_ == 2 && OnRootDisk(v.table[0]) && v.table[0].size == DIRENT * (|files| + 2)
    && Entries(Img(d, v.table[0]), |files| + 2) == RootEntries(files)
    && (forall i :: 0 <= i < |files| ==> HoldsData(Img(d, v.table[i + 1]), v.table[i + 1], files[i].data))
    && (forall i :: 0 <= i < |extra| ==> HoldsData(Img(d, v.table[|files| + i + 1]), v.table[|files| + i + 1], extra[i]))
    && (forall i :: |files| + |extra| < i < NUM_INODES ==> v.table[i].type_ == UNUSED)
  }

  /** The disk is a consistent file system that holds exactly `files`. */
  ghost predicate Holds(d: seq<Block>, v: View, files: seq<File>) {
    && HoldsStaged(d, v, files, [])
    && |v.free| == FS_SIZE - DATA_START - BlocksUsed(files)
  }

  /** Whether one more file can be added, in the order in which the steps of `write_file` fail. */
  ghost function AddResult(files: seq<File>, f: File): FsResult<()>
    requires |files| < NUM_INODES
  {
    if |f.data| > MAXBYTES then Err(WriteTooLarge)
    else if BlocksUsed(files) + FileBlocks(|f.data|) > FS_SIZE - DATA_START then Err(ExhaustedBlocks)
    else if Find(RootEntries(files), f.name).Some? then Err(EntryExists)
    else if DIRENT * (|files| + 3) > MAXBYTES then Err(WriteTooLarge)
    else if BlocksUsed(files + [f]) > FS_SIZE - DATA_START then Err(ExhaustedBlocks)
    else Ok(())
  }

  // ----- writing one file -----

  lemma FreshWriteHolds(img: Image, ino: Inode, data: seq<byte>, nfree: nat, nfree': nat)
    requires |data| <= MAXBYTES && ino.size == WriteSize(0, |data|, 0) && FileBlocks(|data|) <= nfree
    requires ino == FreshInode(FILE).(size := ino.size, blocks := ino.blocks)
    requires Carried(FreshInode(FILE), ZERO_IMAGE, data, nfree, 0, ino.blocks, img, nfree')
    ensures HoldsData(img, ino, data) && nfree' == nfree - FileBlocks(|data|)
  {
    hide PutChunks, Needs, StopAt, WriteImage;
    FreshNeeds(|data|);
    assert img == WriteImage(ZERO_IMAGE, data, 0);
    forall k | 0 <= k < |data| ensures ByteAt(img, k) == data[k] {
      WriteFromStart(ZERO_IMAGE, data, k);
    }
    forall q | 0 <= q < NDIRECT && (q == 0 || BLOCKSIZE * q < |data|) ensures ino.blocks[q] != 0 {
      assert Touched(|data|, 0, q);
    }
  }

  /** A write to a new file that runs out of blocks has taken all there were. */
  lemma FreshWriteFails(data: seq<byte>, nfree: nat, blocks': BlockMap, img': Image, nfree': nat)
    requires |data| <= MAXBYTES && nfree < FileBlocks(|data|)
    requires Carried(FreshInode(FILE), ZERO_IMAGE, data, nfree, 0, blocks', img', nfree')
    ensures nfree' == 0 && (blocks' == ZeroWords(NDIRECT) <==> nfree == 0)
  {
    hide PutChunks, Needs, StopAt, WriteImage;
    FreshNeeds(|data|);
    assert Touched(WriteStop(ZeroWords(NDIRECT), |data|, nfree, 0), 0, 0);
  }

  lemma OnDisk(d: seq<Block>, v: View, i: nat)
    requires Inv(d, v) && i < NUM_INODES && i !in v.dirty
    ensures |d| == FS_SIZE && InodeAt(d, i) == v.table[i]
  {
    hide InodeAt, SbOf, Slots, FreeOnDisk;
  }

  lemma KeptOnDisk(d: seq<Block>, d': seq<Block>, i: nat)
    requires |d| == FS_SIZE && TableKept(d, d') && i < NUM_INODES
    ensures |d'| == FS_SIZE && InodeAt(d', i) == InodeAt(d, i)
  {
    hide InodeOf, ToWords;
  }

  lemma FreshImage(d: seq<Block>, ino: Inode)
    requires ino.blocks == ZeroWords(NDIRECT)
    ensures Img(d, ino) == ZERO_IMAGE
  {
  }

  /** The reads that return the right bytes of a file: those from offset 0, those that end in the
      block they start in, and those from a block boundary that are long enough for the offset. */
  predicate Readable(size: nat, n: nat, offset: nat) {
    || offset == 0
    || (offset < size && offset % BLOCKSIZE + Min(n, size - offset) <= BLOCKSIZE)
    || (offset < size && offset % BLOCKSIZE == 0 && offset + BLOCKSIZE < Min(n, size - offset))
  }

  /** Such a read returns as many bytes as asked for, or all up to the end of the file; `ReadDone`
      has the bytes. */
  lemma ReadBack(img: Image, ino: Inode, data: seq<byte>, n: u32, offset: u32)
    requires HoldsData(img, ino, data) && offset + n < 0x1_0000_0000 && Readable(|data|, n, offset)
    ensures offset <= |data| && offset < MAXBYTES && ReadInBounds(ino, n, offset)
    ensures ReadEnd(offset, Min(n, |data| - offset)) <= NDIRECT
    ensures ReadResult(ino, n, offset) == Ok(Min(n, |data| - offset))
  {
    SmallInBounds(ino, n, offset);
    EndInBounds(offset, Min(n, |data| - offset));
  }

  lemma ReadBackByte(img: Image, ino: Inode, data: seq<byte>, dst: seq<byte>, offset: u32, i: nat)
    requires HoldsData(img, ino, data) && Readable(|data|, |dst|, offset) && offset <= |data| && offset < MAXBYTES && i < |dst|
    requires ReadEnd(offset, Min(|dst|, |data| - offset)) <= NDIRECT
    ensures ReadByte(img, dst, offset, Min(|dst|, |data| - offset), i) ==
            if i < Min(|dst|, |data| - offset) then data[offset + i] else dst[i]
  {
    var len := Min(|dst|, |data| - offset);
    if i < len { ReadExact(img, dst, offset, len, i); }
  }

  lemma RootEntriesAppend(files: seq<File>, f: File)
    requires |files| + 1 < NUM_INODES
    ensures RootEntries(files + [f]) == RootEntries(files) + [Entry(|files| + 1, Stored(|files| + 2, f.name))]
  {
    var adds := FileAdds(files + [f]);
    AddsStep(DOTS, adds, |files|);
    assert adds[..|files| + 1] == adds && adds[..|files|] == FileAdds(files);
  }

  /** A new file takes its own blocks, and a directory block if its entry starts in a new one. */
  lemma BlocksUsedAppend(files: seq<File>, f: File)
    ensures BlocksUsed(files + [f]) ==
            BlocksUsed(files) + FileBlocks(|f.data|) + DirBlocks(DIRENT * (|files| + 3)) - DirBlocks(DIRENT * (|files| + 2))
    ensures DirBlocks(DIRENT * (|files| + 2)) <= DirBlocks(DIRENT * (|files| + 3))
  {
    assert (files + [f])[..|files|] == files;
  }

  lemma FreshWriteResult(n: u32, nfree: nat)
    ensures WriteResult(FreshInode(FILE), nfree, n, 0) ==
            if n > MAXBYTES then Err(WriteTooLarge) else if nfree < FileBlocks(n) then Err(ExhaustedBlocks) else Ok(n)
    ensures n <= MAXBYTES ==> WriteNeeds(FreshInode(FILE).blocks, n, 0) == FileBlocks(n)
  {
    if n <= MAXBYTES { FreshNeeds(n); }
  }

  /** A file may have 32768 bytes and no more: into a new image one of that size goes, and none longer. */
  lemma LargestFile(f: File)
    requires Find(RootEntries([]), f.name).None?
    ensures |f.data| <= 32768 ==> AddResult([], f) == Ok(())
    ensures |f.data| > 32768 ==> AddResult([], f) == Err(WriteTooLarge)
  {
    hide Lookup, Stored, RootEntries, BlocksUsed, FileBlocks, DirBlocks;
    EmptyImageBlocks(|f.data|);
    BlocksUsedAppend([], f);
  }

  lemma EmptyImageBlocks(n: nat)
    ensures BlocksUsed([]) == 1 && DirBlocks(DIRENT * 2) == 1 && DirBlocks(DIRENT * 3) == 2
    ensures n <= 32768 ==> FileBlocks(n) <= 64
  {
  }

  lemma RootLive(files: seq<File>)
    requires |files| < NUM_INODES
    ensures Live(RootEntries(files))
    ensures forall k :: 0 <= k < |files| + 2 ==> RootEntries(files)[k].inum == if k < 2 then ROOT_INUM else k - 1
  {
    hide Stored;
    var es, adds := RootEntries(files), FileAdds(files);
    forall k | 0 <= k < |es| ensures es[k].inum == if k < 2 then ROOT_INUM else k - 1 {
      assert k >= 2 ==> es[|DOTS| + (k - 2)] == Entry(adds[k - 2].inum, Stored(|DOTS| + (k - 2), adds[k - 2].name));
    }
  }

  lemma RootSize(d: seq<Block>, v: View, files: seq<File>, extra: seq<seq<byte>>)
    requires HoldsStaged(d, v, files, extra)
    ensures Inv(d, v) && v.dirty == {}
    ensures |files| <= 124 && IsDir(v.table[0]) && v.table[0].size == DIRENT * (|files| + 2)
    ensures Count(v.table[0]) == |files| + 2 && Entries(Img(d, v.table[0]), |files| + 2) == RootEntries(files)
    ensures Live(Entries(Img(d, v.table[0]), Count(v.table[0])))
    ensures forall i :: 0 <= i <= |files| + |extra| ==> v.table[i].type_ != UNUSED
    ensures |files| + |extra| + 1 < NUM_INODES ==> v.table[|files| + |extra| + 1].type_ == UNUSED
  {
    hide Inv, Entries, Img, RootEntries;
    RootLive(files);
    forall i | 0 <= i <= |files| + |extra| ensures v.table[i].type_ != UNUSED {
      if 0 < i <= |files| {
        assert HoldsData(Img(d, v.table[i - 1 + 1]), v.table[i - 1 + 1], files[i - 1].data);
      } else if i > |files| {
        assert HoldsData(Img(d, v.table[|files| + (i - 1 - |files|) + 1]), v.table[|files| + (i - 1 - |files|) + 1], extra[i - 1 - |files|]);
      }
    }
  }

  /** Filling the next inode keeps all files and adds its data. */
  lemma StageKeeps(d: seq<Block>, v: View, files: seq<File>, d': seq<Block>, v': View, data: seq<byte>)
    requires HoldsStaged(d, v, files, []) && |files| + 1 < NUM_INODES
    requires Inv(d', v') && v'.dirty == {} && OthersKept(d, v, d', v', |files| + 1) && SbKept(d, d')
    requires HoldsData(Img(d', v'.table[|files| + 1]), v'.table[|files| + 1], data)
    ensures HoldsStaged(d', v', files, [data])
  {
    hide Inv, HoldsData, IsDir, Entries, Img, RootEntries, Formatted;
    StaysFormatted(d, d');
  }

  /** Adding its name to the root directory completes the file. */
  lemma LinkKeeps(d: seq<Block>, v: View, files: seq<File>, f: File, d': seq<Block>, v': View)
    requires HoldsStaged(d, v, files, [f.data])
    requires Inv(d', v') && v'.dirty == {} && OthersKept(d, v, d', v', 0) && SbKept(d, d')
    requires IsDir(v'.table[0]) && v'.table[0].size == DIRENT * (|files| + 3)
    requires v'.table[0] == v.table[0].(size := v'.table[0].size, blocks := v'.table[0].blocks)
    requires Entries(Img(d', v'.table[0]), |files| + 3) ==
             Entries(Img(d, v.table[0]), |files| + 2) + [Entry(|files| + 1, Stored(|files| + 2, f.name))]
    ensures HoldsStaged(d', v', files + [f], [])
  {
    hide Inv, HoldsData, IsDir, Entries, Img, Stored, RootEntries, OthersKept, Formatted;
    StaysFormatted(d, d');
    RootEntriesAppend(files, f);
    var fs := files + [f];
    forall i | 0 <= i < |fs| ensures HoldsData(Img(d', v'.table[i + 1]), v'.table[i + 1], fs[i].data) {
      FileKept(d, v, files, f, d', v', i);
    }
    forall i | |fs| < i < NUM_INODES ensures v'.table[i].type_ == UNUSED {
      InodeKept(d, v, d', v', 0, i);
    }
  }

  lemma InodeKept(d: seq<Block>, v: View, d': seq<Block>, v': View, inum: nat, i: nat)
    requires OthersKept(d, v, d', v', inum) && i < NUM_INODES && i != inum
    ensures v'.table[i] == v.table[i] && Img(d', v'.table[i]) == Img(d, v.table[i])
  {
  }

  lemma FileKept(d: seq<Block>, v: View, files: seq<File>, f: File, d': seq<Block>, v': View, i: nat)
    requires HoldsStaged(d, v, files, [f.data]) && OthersKept(d, v, d', v', 0) && i <= |files|
    ensures HoldsData(Img(d', v'.table[i + 1]), v'.table[i + 1], (files + [f])[i].data)
  {
    hide Inv, HoldsData, IsDir, Entries, Img, Stored, RootEntries, OthersKept;
    InodeKept(d, v, d', v', 0, i + 1);
    if i == |files| {
      assert HoldsData(Img(d, v.table[|files| + 0 + 1]), v.table[|files| + 0 + 1], [f.data][0]);
    }
  }

  /** Allocate an inode, write the data, write the inode back, and read every byte to check. */
  method StageFile(fs: FileSystem, data: seq<byte>, ghost files: seq<File>) returns (r: FsResult<u32>)
    requires Holds(fs.disk, fs.view, files) && |data| < 0x1_0000_0000
    modifies fs
    ensures Inv(fs.disk, fs.view)
    ensures r == if |data| > MAXBYTES then Err(WriteTooLarge)
                 else if BlocksUsed(files) + FileBlocks(|data|) > FS_SIZE - DATA_START then Err(ExhaustedBlocks)
                 else Ok(|files| + 1)
    ensures r.Ok? ==> HoldsStaged(fs.disk, fs.view, files, [data])
                      && |fs.view.free| == |old(fs.view.free)| - FileBlocks(|data|)
    ensures r.Err? ==> OthersKept(old(fs.disk), old(fs.view), fs.disk, fs.view, |files| + 1)
    ensures r == Err(WriteTooLarge) ==> fs.view.dirty == {}
    ensures r == Err(ExhaustedBlocks) ==>
              && fs.view.free == [] && fs.view.dirty == (if old(fs.view.free) == [] then {} else {|files| + 1})
              && |fs.disk| == FS_SIZE && InodeAt(fs.disk, |files| + 1) == Inode(1, 1, 0, 0, 0, ZeroWords(NDIRECT))
  {
    hide Inv, Img, IsDir, Entries, HoldsData, OthersKept, RootEntries, WriteNeeds, HoldsStaged, BlocksUsed, FileBlocks, WriteResult,
      Carried, TableKept, InodeAt, SbKept;
    RootSize(fs.disk, fs.view, files, []);
    var inode := FreshInode(FILE);
    var a := fs.AllocInode(inode);
    var inum := a.value;
    ghost var d1, v1 := fs.disk, fs.view;
    FreshImage(d1, inode);
    FreshWriteResult(|data|, |v1.free|);
    OnDisk(d1, v1, inum);
    var w;
    w, inode := fs.Write(inode, data, 0, inum);
    ghost var d2, v2 := fs.disk, fs.view;
    OthersKeptTrans(old(fs.disk), old(fs.view), d1, v1, d2, v2, inum);
    SbKeptOf(old(fs.disk), d1);
    SbKeptOf(d1, d2);
    SbKeptTrans(old(fs.disk), d1, d2);
    TableEntries(fs.disk, fs.view);
    if w.Err? {
      KeptOnDisk(d1, d2, inum);
      if w == Err(ExhaustedBlocks) {
        FreshWriteFails(data, |v1.free|, inode.blocks, Img(d2, inode), |v2.free|);
      }
      return Err(w.error);
    }
    FreshWriteHolds(Img(d2, inode), inode, data, |v1.free|, |v2.free|);
    WriteBack(fs, inum, inode);
    OthersKeptTrans(old(fs.disk), old(fs.view), d2, v2, fs.disk, fs.view, inum);
    SbKeptTrans(old(fs.disk), d2, fs.disk);
    StageKeeps(old(fs.disk), old(fs.view), files, fs.disk, fs.view, data);
    CheckData(fs, inum, data);
    r := Ok(inum);
  }

  /** The write-back check of `write_file`: an empty read, then every byte. */
  method CheckData(fs: FileSystem, inum: u32, data: seq<byte>)
    requires Inv(fs.disk, fs.view) && inum < NUM_INODES && inum !in fs.view.dirty
    requires HoldsData(Img(fs.disk, fs.view.table[inum]), fs.view.table[inum], data)
  {
    hide Inv, Img, ReadResult, ReadByte, HoldsData, ReadEnd, ReadInBounds;
    DirInRange(fs.disk, fs.view, inum);
    TableEntries(fs.disk, fs.view);
    ghost var img := Img(fs.disk, fs.view.table[inum]);
    var inode := fs.ReadInode(inum);
    ReadBack(img, inode, data, 0, 0);
    var r0, _ := fs.Read(inode, [], 0);
    assert r0 == Ok(0);
    FileSize(img, inode, data);
    assert |data| == inode.size;
    for i := 0 to |data| {
      ReadBack(img, inode, data, 1, i);
      var r1, b2 := fs.Read(inode, Zeros(1), i);
      ReadDone(img, inode, data, i, Zeros(1), r1, b2);
      assert r1 == Ok(1) && b2[0] == data[i];
    }
  }

  /** Add the name to the root directory and write its inode back. */
  method LinkFile(fs: FileSystem, name: seq<byte>, inum: u32, ghost files: seq<File>, ghost data: seq<byte>) returns (r: FsResult<()>)
    requires HoldsStaged(fs.disk, fs.view, files, [data]) && |name| <= DIRNAME_SIZE && inum == |files| + 1
    modifies fs
    ensures Inv(fs.disk, fs.view)
    ensures var grow := DirBlocks(DIRENT * (|files| + 3)) - DirBlocks(DIRENT * (|files| + 2));
            && r == (if Find(RootEntries(files), name).Some? then Err(EntryExists)
                     else if DIRENT * (|files| + 3) > MAXBYTES then Err(WriteTooLarge)
                     else if |old(fs.view.free)| < grow then Err(ExhaustedBlocks)
                     else Ok(()))
            && (r.Ok? ==> |fs.view.free| == |old(fs.view.free)| - grow)
    ensures r.Ok? ==> HoldsStaged(fs.disk, fs.view, files + [File(name, data)], [])
    ensures r.Err? ==> fs.disk == old(fs.disk) && fs.view == old(fs.view)
  {
    hide Inv, Img, IsDir, Entries, HoldsData, OthersKept, RootEntries, Lookup, Stored, HoldsStaged, DirBlocks, TableKept, SbKept;
    RootSize(fs.disk, fs.view, files, [data]);
    TableEntries(fs.disk, fs.view);
    var root := fs.ReadInode(ROOT_INUM);
    r, root := fs.DirAppend(root, name, inum, 0);
    if r.Ok? {
      ghost var d1, v1 := fs.disk, fs.view;
      WriteBack(fs, ROOT_INUM, root);
      OthersKeptTrans(old(fs.disk), old(fs.view), d1, v1, fs.disk, fs.view, 0);
      SbKeptOf(old(fs.disk), d1);
      SbKeptTrans(old(fs.disk), d1, fs.disk);
      LinkKeeps(old(fs.disk), old(fs.view), files, File(name, data), fs.disk, fs.view);
    }
  }

  /** `write_file`.  When it fails, an inode is left unwritten exactly if the blocks ran out while
      the data was being copied and some had been taken by then. */
  method WriteFile(fs: FileSystem, path: seq<byte>, data: seq<byte>, ghost files: seq<File>) returns (r: FsResult<()>)
    requires Holds(fs.disk, fs.view, files) && |data| < 0x1_0000_0000
    modifies fs
    ensures Inv(fs.disk, fs.view)
    ensures var f := File(path[..Min(|path|, 254)], data);
            r == AddResult(files, f) && (r.Ok? ==> Holds(fs.disk, fs.view, files + [f]))
    ensures fs.view.dirty != {} <==>
            |data| <= MAXBYTES && BlocksUsed(files) < FS_SIZE - DATA_START < BlocksUsed(files) + FileBlocks(|data|)
  {
    hide Inv, Find, RootEntries, HoldsStaged, BlocksUsed, FileBlocks, IsDir, DirBlocks, OthersKept, InodeAt;
    HoldsInv(fs.disk, fs.view, files);
    var s := StageFile(fs, data, files);
    if s.Err? {
      return Err(s.error);
    }
    var name := path[..Min(|path|, DIRNAME_SIZE)];
    RootSize(fs.disk, fs.view, files, [data]);
    BlocksUsedAppend(files, File(name, data));
    r := LinkFile(fs, name, s.value, files, data);
    if r.Ok? { RootSize(fs.disk, fs.view, files + [File(name, data)], []); }
  }

  // ----- formatting -----

  /** Where the inode table is cleared, by the superblock that is on the disk before formatting. */
  ghost predicate TableInBounds(d: seq<Block>) {
    |d| == FS_SIZE && SbOf(d[0]).inode_start + NUM_INODES <= FS_SIZE
  }

  /** The disks `mkfs` formats: whatever part of the table it does not clear is unused already. */
  ghost predicate Formattable(d: seq<Block>) {
    && TableInBounds(d)
    && var s0: int := SbOf(d[0]).inode_start;
       forall i :: 0 <= i < NUM_INODES && !(s0 <= 1 + i < s0 + NUM_INODES) ==> InodeAt(d, i) == UNUSED_INODE
  }

  /** A disk that already holds a file system can be formatted again, whatever its table holds. */
  lemma FormattedIsFormattable(d: seq<Block>)
    requires |d| == FS_SIZE && SbOf(d[0]).inode_start == INODE_START
    ensures Formattable(d)
  {
    hide SbOf, InodeAt;
  }

  lemma ZeroDiskFormattable(d: seq<Block>)
    requires |d| == FS_SIZE && forall b :: 0 <= b < FS_SIZE ==> d[b] == ZERO_BLOCK
    ensures Formattable(d)
  {
    WordsOfZeros();
    UnusedInodeIsZero();
  }

  lemma ClearedBlock(b: Block)
    ensures InodeOf(ToWords(PutInode(b, UNUSED_INODE))) == UNUSED_INODE
    ensures SbOf(PutInode(b, UNUSED_INODE)).inode_start == 0
  {
    PutInodeRoundTrip(b, UNUSED_INODE);
    WordsOfOverlay(b, InodeWords(UNUSED_INODE));
  }

  lemma AllCallers(lo: u32, hi: u32) returns (own: map<u32, Owner>)
    requires lo <= hi
    ensures forall b :: b in own <==> lo <= b < hi
    ensures forall b :: b in own ==> own[b] == Caller
  {
    own := map[];
    for b: int := lo to hi
      invariant forall x :: x in own <==> lo <= x < b
      invariant forall x :: x in own ==> own[x] == Caller
    {
      own := own[b := Caller];
    }
  }

  /** Before any block is freed, the formatter itself holds all of them. */
  lemma BlankInv(d: seq<Block>, v: View)
    requires |d| == FS_SIZE && SbOf(d[0]).inode_start == INODE_START && SbOf(d[0]).freelist_start == 0
    requires forall i :: 0 <= i < NUM_INODES ==> InodeAt(d, i) == UNUSED_INODE
    requires v.free == [] && v.dirty == {} && v.table == seq(NUM_INODES, _ => UNUSED_INODE)
    requires forall b :: b in v.own <==> DATA_START <= b < FS_SIZE
    requires forall b :: b in v.own ==> v.own[b] == Caller
    ensures Inv(d, v)
  {
    hide SbOf, InodeOf, ToWords;
  }

  /** The formatter clears 256 blocks from where the old superblock has its table.  That clears the
      new table exactly on the disks it can format. */
  method ClearInodes(fs: FileSystem)
    requires TableInBounds(fs.disk)
    modifies fs
    ensures |fs.disk| == FS_SIZE
    ensures (forall i :: 0 <= i < NUM_INODES ==> InodeAt(fs.disk, i) == UNUSED_INODE) <==> old(Formattable(fs.disk))
    ensures var s0: int := SbOf(old(fs.disk)[0]).inode_start;
            forall b :: 0 <= b < FS_SIZE && !(s0 <= b < s0 + NUM_INODES) ==> fs.disk[b] == old(fs.disk)[b]
  {
    hide SbOf, InodeOf, ToWords, Formattable, InodeAt;
    ghost var s0: int := SbOf(fs.disk[0]).inode_start;
    var i := 0;
    while i < NUM_INODES
      invariant 0 <= i <= NUM_INODES && |fs.disk| == FS_SIZE && SbOf(fs.disk[0]).inode_start == s0
      invariant forall b :: s0 <= b < s0 + i ==> InodeOf(ToWords(fs.disk[b])) == UNUSED_INODE
      invariant forall b :: 0 <= b < FS_SIZE && !(s0 <= b < s0 + i) ==> fs.disk[b] == old(fs.disk)[b]
    {
      ClearInode(fs, i);
      i := i + 1;
    }
    TableCleared(old(fs.disk), fs.disk, s0);
  }

  method ClearInode(fs: FileSystem, inum: u32)
    requires |fs.disk| == FS_SIZE && SbOf(fs.disk[0]).inode_start + inum < FS_SIZE
    modifies fs
    ensures |fs.disk| == FS_SIZE && SbOf(fs.disk[0]).inode_start == SbOf(old(fs.disk)[0]).inode_start
    ensures var b := SbOf(old(fs.disk)[0]).inode_start + inum;
            && InodeOf(ToWords(fs.disk[b])) == UNUSED_INODE
            && forall x :: 0 <= x < FS_SIZE && x != b ==> fs.disk[x] == old(fs.disk)[x]
  {
    hide SbOf, InodeOf, ToWords, PutInode, Inv, OthersKept, Img, Sync;
    var b := SbOf(fs.disk[0]).inode_start + inum;
    ClearedBlock(fs.disk[b]);
    fs.UpdateInode(inum, UNUSED_INODE);
  }

  lemma TableCleared(d: seq<Block>, d': seq<Block>, s0: int)
    requires |d| == |d'| == FS_SIZE && 0 <= s0 <= FS_SIZE - NUM_INODES && s0 == SbOf(d[0]).inode_start
    requires forall b :: s0 <= b < s0 + NUM_INODES ==> InodeOf(ToWords(d'[b])) == UNUSED_INODE
    requires forall b :: 0 <= b < FS_SIZE && !(s0 <= b < s0 + NUM_INODES) ==> d'[b] == d[b]
    ensures (forall i :: 0 <= i < NUM_INODES ==> InodeAt(d', i) == UNUSED_INODE) <==> Formattable(d)
  {
    hide SbOf, InodeOf, ToWords;
    forall i | 0 <= i < NUM_INODES
      ensures InodeAt(d', i) == if s0 <= 1 + i < s0 + NUM_INODES then UNUSED_INODE else InodeAt(d, i)
    {
      assert s0 <= 1 + i < s0 + NUM_INODES ==> InodeOf(ToWords(d'[1 + i])) == UNUSED_INODE;
    }
  }

  /** Write the superblock and put every data block on the free list. */
  method MakeFreeList(fs: FileSystem)
    requires |fs.disk| == FS_SIZE && forall i :: 0 <= i < NUM_INODES ==> InodeAt(fs.disk, i) == UNUSED_INODE
    modifies fs
    ensures Inv(fs.disk, fs.view) && fs.view.own == map[] && fs.view.dirty == {}
    ensures fs.view.table == seq(NUM_INODES, _ => UNUSED_INODE)
    ensures |fs.view.free| == FS_SIZE - DATA_START && Formatted(fs.disk)
    ensures forall i :: 0 <= i < |fs.view.free| ==> fs.view.free[i] == 257 + i
  {
    hide Inv, SbOf, InodeOf, ToWords, PutSb, UsedKept, SbKept;
    var sb := SuperBlock(0, FS_SIZE, NUM_INODES, 1, UNUSED_BLOCKADDR);
    var buf := PutSb(ZERO_BLOCK, sb);
    SbRoundTrip(ZERO_BLOCK, sb);
    var _ := fs.DiskWrite(buf, SUPERBLOCK_ADDR);
    assert SbOf(fs.disk[0]) == sb;
    assert forall i :: 0 <= i < NUM_INODES ==> InodeAt(fs.disk, i) == InodeAt(old(fs.disk), i);
    ghost var own := AllCallers(DATA_START, FS_SIZE);
    fs.view := View([], own, seq(NUM_INODES, _ => UNUSED_INODE), {});
    BlankInv(fs.disk, fs.view);

    var blockno := DATA_START;
    while blockno < FS_SIZE
      invariant DATA_START <= blockno <= FS_SIZE && Inv(fs.disk, fs.view)
      invariant fs.view.table == seq(NUM_INODES, _ => UNUSED_INODE) && fs.view.dirty == {}
      invariant |fs.view.free| == blockno - DATA_START && Formatted(fs.disk)
      invariant forall i :: 0 <= i < |fs.view.free| ==> fs.view.free[i] == DATA_START + i
      invariant forall b :: b in fs.view.own <==> blockno <= b < FS_SIZE
      invariant forall b :: b in fs.view.own ==> fs.view.own[b] == Caller
    {
      ghost var d1 := fs.disk;
      fs.FreeBlock(blockno);
      StaysFormatted(d1, fs.disk);
      blockno := blockno + 1;
    }
  }

  lemma DotEntries()
    ensures Stored(0, DOT) == DOT && Stored(1, DOTDOT) == DOTDOT
    ensures RootEntries([]) == DOTS && DOTS == [Entry(ROOT_INUM, DOT), Entry(ROOT_INUM, DOTDOT)]
    ensures LookupResult(RootEntries([]), DOT) == Ok((0, 0)) && LookupResult(RootEntries([]), DOTDOT) == Ok((0, DIRENT))
    ensures Lookup([], DOT).None? && Lookup([Entry(ROOT_INUM, DOT)], DOTDOT).None?
  {
    StoredInFull(0, DOT);
    StoredInFull(1, DOTDOT);
    assert RootEntries([])[0] == Entry(ROOT_INUM, DOT) && RootEntries([])[1] == Entry(ROOT_INUM, DOTDOT);
    LookupIs(RootEntries([]), DOT, Some(0));
    LookupIs(RootEntries([]), DOTDOT, Some(1));
  }

  /** The entries of the root directory as they come in; `one` is "." alone. */
  lemma DotLists() returns (one: seq<Entry>)
    ensures |one| == 1 && Live([]) && Live(one) && Lookup([], DOT).None? && Lookup(one, DOTDOT).None?
    ensures [] + [Entry(ROOT_INUM, Stored(0, DOT))] == one && one + [Entry(ROOT_INUM, Stored(1, DOTDOT))] == RootEntries([])
    ensures |DOT| <= DIRNAME_SIZE && |DOTDOT| <= DIRNAME_SIZE
  {
    hide Stored, Lookup, RootEntries;
    DotEntries();
    one := [Entry(ROOT_INUM, DOT)];
  }

  /** Whatever has been added, "." is at the start of the root directory and ".." behind it, and both
      are inode 0. */
  lemma RootDots(files: seq<File>)
    requires |files| < NUM_INODES
    ensures LookupResult(RootEntries(files), [46]) == Ok((0, 0))
    ensures LookupResult(RootEntries(files), [46, 46]) == Ok((0, 260))
  {
    hide Stored, Lookup;
    DotEntries();
    assert DOT == [46] && DOTDOT == [46, 46];
    FoundStays(DOTS, FileAdds(files), DOT);
    FoundStays(DOTS, FileAdds(files), DOTDOT);
  }

  lemma FreshDir(d: seq<Block>)
    ensures IsDir(FreshInode(DIRECTORY)) && Entries(Img(d, FreshInode(DIRECTORY)), 0) == []
  {
  }

  lemma FormattedHolds(d: seq<Block>, v: View, d': seq<Block>, v': View)
    requires Inv(d', v') && v'.dirty == {} && |v'.free| == FS_SIZE - DATA_START - 1
    requires IsDir(v'.table[0]) && v'.table[0].size == 2 * DIRENT && Entries(Img(d', v'.table[0]), 2) == RootEntries([])
    requires OthersKept(d, v, d', v', 0) && forall i :: 1 <= i < NUM_INODES ==> v.table[i].type_ == UNUSED
    requires Formatted(d') && v'.table[0].type_ == 2 && OnRootDisk(v'.table[0])
    ensures Holds(d', v', [])
  {
    hide Inv, Img, Entries, IsDir, RootEntries, Formatted;
  }

  lemma OneDirBlock()
    ensures DirBlocks(0) == 0 && DirBlocks(DIRENT) == 1 && DirBlocks(DIRENT + DIRENT) == 1
  {
  }

  /** One of the first two entries of the root directory. */
  method AddDot(fs: FileSystem, inode: Inode, name: seq<byte>, ghost es: seq<Entry>) returns (inode': Inode)
    requires Inv(fs.disk, fs.view) && fs.view.table[0] == inode && IsDir(inode) && inode.size == DIRENT * |es| <= DIRENT
    requires Entries(Img(fs.disk, inode), |es|) == es && Live(es) && Lookup(es, name).None?
    requires |name| <= DIRNAME_SIZE && fs.view.free != []
    modifies fs
    ensures Inv(fs.disk, fs.view) && OthersKept(old(fs.disk), old(fs.view), fs.disk, fs.view, 0) && TableKept(old(fs.disk), fs.disk)
    ensures inode' == inode.(size := inode'.size, blocks := inode'.blocks)
    ensures fs.view.table[0] == inode' && fs.view.dirty <= old(fs.view.dirty) + {0}
    ensures IsDir(inode') && inode'.size == DIRENT * (|es| + 1)
    ensures Entries(Img(fs.disk, inode'), |es| + 1) == es + [Entry(ROOT_INUM, Stored(|es|, name))]
    ensures |fs.view.free| == |old(fs.view.free)| - if es == [] then 1 else 0
  {
    hide Inv, Img, Entries, Lookup, Stored, OthersKept, IsDir, TableKept;
    assert Count(inode) == |es|;
    var r;
    OneDirBlock();
    r, inode' := fs.DirAppend(inode, name, ROOT_INUM, 0);
    assert r.Ok?;
  }

  /** Add "." and ".." to the empty root directory, write it back and check it. */
  method AddDots(fs: FileSystem)
    requires Inv(fs.disk, fs.view) && fs.view.dirty == {} && |fs.view.free| == FS_SIZE - DATA_START
    requires fs.view.table[0] == FreshInode(DIRECTORY)
    requires forall i :: 1 <= i < NUM_INODES ==> fs.view.table[i].type_ == UNUSED
    requires Formatted(fs.disk)
    modifies fs
    ensures Holds(fs.disk, fs.view, [])
  {
    hide Inv, Img, Entries, IsDir, RootEntries, Lookup, Stored, Holds, OthersKept, Sync, Formatted, SbKept;
    var inode := FillRoot(fs);
    ghost var d2, v2 := fs.disk, fs.view;
    WriteBack(fs, ROOT_INUM, inode);
    OthersKeptTrans(old(fs.disk), old(fs.view), d2, v2, fs.disk, fs.view, 0);
    StaysFormatted(old(fs.disk), d2);
    StaysFormatted(d2, fs.disk);
    FormattedHolds(old(fs.disk), old(fs.view), fs.disk, fs.view);
    CheckDots(fs, inode);
  }

  /** The two entries, in memory and in the directory's block. */
  method FillRoot(fs: FileSystem) returns (inode: Inode)
    requires Inv(fs.disk, fs.view) && fs.view.dirty == {} && |fs.view.free| == FS_SIZE - DATA_START
    requires fs.view.table[0] == FreshInode(DIRECTORY)
    modifies fs
    ensures Inv(fs.disk, fs.view) && OthersKept(old(fs.disk), old(fs.view), fs.disk, fs.view, 0) && SbKept(old(fs.disk), fs.disk)
    ensures inode.type_ == 2 && OnRootDisk(inode)
    ensures fs.view.table[0] == inode && fs.view.dirty <= {0} && |fs.view.free| == FS_SIZE - DATA_START - 1
    ensures IsDir(inode) && inode.size == 2 * DIRENT && Entries(Img(fs.disk, inode), 2) == RootEntries([])
  {
    hide Inv, Img, Entries, IsDir, RootEntries, Lookup, Stored, OthersKept, Live, TableKept, SbKept;
    inode := FreshInode(DIRECTORY);
    FreshDir(fs.disk);
    ghost var one := DotLists();
    inode := AddDot(fs, inode, DOT, []);
    ghost var d1, v1 := fs.disk, fs.view;
    inode := AddDot(fs, inode, DOTDOT, one);
    OthersKeptTrans(old(fs.disk), old(fs.view), d1, v1, fs.disk, fs.view, 0);
    TableKeptTrans(old(fs.disk), d1, fs.disk);
    SbKeptOf(old(fs.disk), fs.disk);
  }

  /** `update_inode` in a formatted file system: the inode in memory goes to disk. */
  method WriteBack(fs: FileSystem, inum: u32, inode: Inode)
    requires Inv(fs.disk, fs.view) && inum < NUM_INODES && fs.view.table[inum] == inode
    modifies fs
    ensures Inv(fs.disk, fs.view) && OthersKept(old(fs.disk), old(fs.view), fs.disk, fs.view, inum) && SbKept(old(fs.disk), fs.disk)
    ensures fs.view.table == old(fs.view.table) && fs.view.free == old(fs.view.free) && fs.view.dirty == old(fs.view.dirty) - {inum as nat}
    ensures Img(fs.disk, inode) == old(Img(fs.disk, inode))
  {
    hide Inv, Img, OthersKept, InodeAt, PutInode, SbOf, SbKept;
    TableEntries(fs.disk, fs.view);
    fs.UpdateInode(inum, inode);
    SbKeptOf(old(fs.disk), fs.disk);
    assert old(fs.view.table)[inum := inode] == old(fs.view.table);
  }

  /** The final checks of `mkfs`. */
  method CheckDots(fs: FileSystem, inode: Inode)
    requires Inv(fs.disk, fs.view) && fs.view.dirty == {} && fs.view.table[0] == inode && IsDir(inode)
    requires Entries(Img(fs.disk, inode), Count(inode)) == RootEntries([])
  {
    hide Inv, Img, Entries, IsDir, RootEntries, Lookup;
    DotEntries();
    DirInRange(fs.disk, fs.view, 0);
    TableEntries(fs.disk, fs.view);
    var inode2 := fs.ReadInode(ROOT_INUM);
    assert inode2 == inode;
    var dot := fs.DirLookup(inode, DOT);
    assert dot == Ok((0, 0));
    var dotdot := fs.DirLookup(inode, DOTDOT);
    assert dotdot == Ok((0, DIRENT));
  }

  method Mkfs(fs: FileSystem)
    requires Formattable(fs.disk)
    modifies fs
    ensures Holds(fs.disk, fs.view, [])
  {
    hide Inv, Holds, SbOf, InodeAt, OthersKept;
    ClearInodes(fs);
    MakeFreeList(fs);
    ghost var d1 := fs.disk;
    assert fs.view.table[0] == UNUSED_INODE;
    var a := fs.AllocInode(FreshInode(DIRECTORY));
    assert a == Ok(ROOT_INUM);
    assert fs.disk[0] == d1[0];
    AddDots(fs);
  }

  // ----- the whole image -----

  /** A name is cut to what a directory entry has room for. */
  function Truncated(f: File): (t: File)
    ensures t.data == f.data && |t.name| == Min(|f.name|, 254) && t.name <= f.name
  {
    File(f.name[..Min(|f.name|, DIRNAME_SIZE)], f.data)
  }

  function TruncatedAll(files: seq<File>): (r: seq<File>)
    ensures |r| == |files| && forall i :: 0 <= i < |files| ==> r[i] == Truncated(files[i])
  {
    seq(|files|, i requires 0 <= i < |files| => Truncated(files[i]))
  }

  /** Every file can be added after the ones before it. */
  ghost predicate Buildable(files: seq<File>) {
    forall i :: 0 <= i < |files| ==> i < NUM_INODES && AddResult(files[..i], files[i]).Ok?
  }

  /** The formatter's `main`: format the disk and copy each file in; the first failure ends the run. */
  method BuildImage(fs: FileSystem, args: seq<File>) returns (ok: bool)
    requires Formattable(fs.disk)
    requires forall i :: 0 <= i < |args| ==> |args[i].data| < 0x1_0000_0000
    modifies fs
    ensures ok <==> Buildable(TruncatedAll(args))
    ensures ok ==> Holds(fs.disk, fs.view, TruncatedAll(args))
    ensures Inv(fs.disk, fs.view)
  {
    hide Inv, Formattable, AddResult, HoldsStaged;
    Mkfs(fs);
    ghost var files := TruncatedAll(args);
    HoldsInv(fs.disk, fs.view, []);
    assert files[..0] == [];
    var i := 0;
    while i < |args|
      invariant 0 <= i <= |args| && Holds(fs.disk, fs.view, files[..i]) && Inv(fs.disk, fs.view) && i < NUM_INODES
      invariant forall j :: 0 <= j < i ==> AddResult(files[..j], files[j]).Ok?
    {
      var r := WriteFile(fs, args[i].name, args[i].data, files[..i]);
      assert r == AddResult(files[..i], files[i]);
      if r.Err? {
        return false;
      }
      assert files[..i] + [files[i]] == files[..i + 1];
      HoldsInv(fs.disk, fs.view, files[..i + 1]);
      i := i + 1;
    }
    assert files[..|args|] == files;
    ok := true;
  }

  lemma HoldsInv(d: seq<Block>, v: View, files: seq<File>)
    requires Holds(d, v, files)
    ensures Inv(d, v) && |files| < NUM_INODES
  {
    hide Inv;
  }

  /** `SimpleFs::open` followed by a read of the whole file into a zeroed buffer of its size. */
  method ReadWhole(fs: FileSystem, path: seq<byte>, name: seq<byte>, ghost files: seq<File>) returns (r: FsResult<seq<byte>>)
    requires Holds(fs.disk, fs.view, files)
    ensures path != SLASH || Find(RootEntries(files), name).None? ==> r == Err(NotFound)
    ensures forall i :: 0 <= i < |files| && path == SLASH && Find(RootEntries(files), name) == Some(i + 1) ==>
              r == Ok(files[i].data)
  {
    hide Inv, Img, Entries, RootEntries, Lookup, HoldsStaged, BlocksUsed, IsDir;
    RootSize(fs.disk, fs.view, files, []);
    var n := fs.Namex(path, name);
    if n.Err? {
      return Err(n.error);
    }
    FoundInum(files, name);
    r := ReadAll(fs, n.value, files);
  }

  /** The whole contents of inode `inum`. */
  method ReadAll(fs: FileSystem, inum: u32, ghost files: seq<File>) returns (r: FsResult<seq<byte>>)
    requires HoldsStaged(fs.disk, fs.view, files, []) && inum <= |files|
    ensures inum > 0 ==> r == Ok(files[inum - 1].data)
  {
    hide Inv, Img, HoldsData, ReadResult, ReadByte, HoldsStaged, ReadEnd, ReadInBounds;
    RootSize(fs.disk, fs.view, files, []);
    NthFile(fs.disk, fs.view, files, inum);
    DirInRange(fs.disk, fs.view, inum);
    TableEntries(fs.disk, fs.view);
    var inode := fs.ReadInode(inum);
    SmallInBounds(inode, inode.size, 0);
    var len, buf := fs.Read(inode, Zeros(inode.size), 0);
    if inum > 0 {
      FileSize(Img(fs.disk, inode), inode, files[inum - 1].data);
      ReadDone(Img(fs.disk, inode), inode, files[inum - 1].data, 0, Zeros(inode.size), len, buf);
      WholeBuffer(files[inum - 1].data, Zeros(inode.size), buf);
    }
    r := if len.Ok? then Ok(buf) else Err(len.error);
  }

  /** An open file, as `SimpleFs::open` makes it: its inode and where the next read starts. */
  class SimpleFile {
    const fs: FileSystem
    const inode: Inode
    var offset: nat

    /** The file on disk holds `data`. */
    ghost predicate Of(data: seq<byte>)
      reads fs
    {
      && HoldsData(Img(fs.disk, inode), inode, data)
      && forall q :: 0 <= q < NDIRECT ==> inode.blocks[q] < |fs.disk|
    }

    constructor (fs: FileSystem, inode: Inode)
      ensures this.fs == fs && this.inode == inode && offset == 0
    {
      this.fs, this.inode, offset := fs, inode, 0;
    }

    /** `read`: the bytes from the offset on, as many as the buffer takes and the file has; the
        offset moves by the length of the buffer in any case. */
    method Read(dst: seq<byte>, ghost data: seq<byte>) returns (n: nat, buf: seq<byte>)
      requires Of(data) && offset + |dst| < 0x1_0000_0000 && Readable(|data|, |dst|, offset)
      modifies `offset
      ensures old(offset) <= |data| && offset == old(offset) + |dst|
      ensures n == Min(|dst|, |data| - old(offset)) && buf == data[old(offset)..old(offset) + n] + dst[n..]
    {
      hide Img, HoldsData, ReadResult, ReadByte, ReadEnd, ReadInBounds;
      FileSize(Img(fs.disk, inode), inode, data);
      ReadBack(Img(fs.disk, inode), inode, data, |dst|, offset);
      var r;
      r, buf := fs.Read(inode, dst, offset);
      ReadDone(Img(fs.disk, inode), inode, data, offset, dst, r, buf);
      n := r.value;
      offset := offset + |dst|;
    }

    /** Reading block by block until the end of the file returns all of it, in order. */
    method ReadByBlocks(ghost data: seq<byte>) returns (r: seq<byte>)
      requires Of(data) && offset == 0
      modifies `offset
      ensures r == data
    {
      hide Img, HoldsData;
      FileSize(Img(fs.disk, inode), inode, data);
      r := [];
      while offset < inode.size
        invariant offset % BLOCKSIZE == 0 && |r| == Min(offset, |data|) && r == data[..|r|]
        decreases inode.size - offset
      {
        var n, buf := Read(Zeros(BLOCKSIZE), data);
        r := r + buf[..n];
      }
    }
  }

  lemma FileSize(img: Image, ino: Inode, data: seq<byte>)
    requires HoldsData(img, ino, data)
    ensures ino.size == |data| <= 32768
  {
  }

  /** What the buffer holds after a read, byte for byte. */
  lemma ReadDone(img: Image, ino: Inode, data: seq<byte>, offset: u32, dst: seq<byte>, r: FsResult<nat>, buf: seq<byte>)
    requires HoldsData(img, ino, data) && offset + |dst| < 0x1_0000_0000 && Readable(|data|, |dst|, offset)
    requires ReadInBounds(ino, |dst|, offset) && r == ReadResult(ino, |dst|, offset) && |buf| == |dst|
    requires r.Ok? ==> r.value <= |dst| && offset < MAXBYTES && ReadEnd(offset, r.value) <= NDIRECT
    requires r.Ok? ==> forall i :: 0 <= i < |dst| ==> buf[i] == ReadByte(img, dst, offset, r.value, i)
    ensures offset <= |data| && r == Ok(Min(|dst|, |data| - offset))
    ensures buf == data[offset..offset + r.value] + dst[r.value..]
  {
    hide HoldsData, ReadResult, ReadByte, ReadEnd, ReadInBounds;
    ReadBack(img, ino, data, |dst|, offset);
    var n := Min(|dst|, |data| - offset);
    assert r.value == n;
    forall i | 0 <= i < |dst| ensures buf[i] == if i < n then data[offset + i] else dst[i] {
      ReadBackByte(img, ino, data, dst, offset, i);
    }
  }

  lemma WholeBuffer(data: seq<byte>, dst: seq<byte>, buf: seq<byte>)
    requires |dst| == |data| && buf == data[0..0 + Min(|dst|, |data| - 0)] + dst[Min(|dst|, |data| - 0)..]
    ensures buf == data
  {
  }

  lemma FoundInum(files: seq<File>, name: seq<byte>)
    requires |files| < NUM_INODES && Find(RootEntries(files), name).Some?
    ensures Find(RootEntries(files), name).value <= |files|
  {
    hide Stored;
  }

  lemma NthFile(d: seq<Block>, v: View, files: seq<File>, inum: nat)
    requires HoldsStaged(d, v, files, []) && inum <= |files|
    ensures v.table[inum].size <= MAXBYTES
    ensures inum > 0 ==> HoldsData(Img(d, v.table[inum]), v.table[inum], files[inum - 1].data)
  {
    hide Inv, Img, Entries, RootEntries;
    if inum > 0 {
      assert HoldsData(Img(d, v.table[inum - 1 + 1]), v.table[inum - 1 + 1], files[inum - 1].data);
    }
  }

  /** The files of an image were added to its root directory under new names. */
  lemma BuiltByAdds(files: seq<File>)
    requires Buildable(files) && |files| < NUM_INODES
    ensures NewNames(DOTS, FileAdds(files))
  {
    hide Stored, Lookup, AfterAdds, BlocksUsed, FileBlocks;
    var adds := FileAdds(files);
    forall i | 0 <= i < |adds| ensures Lookup(AfterAdds(DOTS, adds[..i]), adds[i].name).None? {
      assert AddResult(files[..i], files[i]).Ok?;
      assert adds[..i] == FileAdds(files[..i]);
    }
  }

  /** In an image, a file is found under its own name, at its own offset, exactly when the name fits
      its entry. */
  lemma FoundIffFits(files: seq<File>, i: nat)
    requires Buildable(files) && i < |files| < NUM_INODES
    ensures LookupResult(RootEntries(files), files[i].name) == Ok((i + 1, DIRENT * (i + 2))) <==> Fits(i + 2, files[i].name)
    ensures Fits(i + 2, files[i].name) ==> Find(RootEntries(files), files[i].name) == Some(i + 1)
  {
    hide Stored, Lookup, Fits, NewNames, AfterAdds, Buildable;
    BuiltByAdds(files);
    AddedIsFound(DOTS, FileAdds(files), i);
  }

  /** End to end: build an image and read one of its files back through the root directory. */
  method BuildAndRead(fs: FileSystem, args: seq<File>, i: nat) returns (ok: bool, r: FsResult<seq<byte>>)
    requires Formattable(fs.disk) && i < |args|
    requires forall j :: 0 <= j < |args| ==> |args[j].data| < 0x1_0000_0000
    modifies fs
    ensures ok <==> Buildable(TruncatedAll(args))
    ensures ok && Fits(i + 2, Truncated(args[i]).name) ==> r == Ok(args[i].data)
  {
    hide Inv, Formattable, AddResult, HoldsStaged, Fits, Find;
    ok := BuildImage(fs, args);
    if !ok {
      return ok, Err(NotFound);
    }
    ghost var files := TruncatedAll(args);
    HoldsInv(fs.disk, fs.view, files);
    FoundIffFits(files, i);
    var name := Truncated(args[i]).name;
    r := ReadWhole(fs, SLASH, name, files);
  }
}
