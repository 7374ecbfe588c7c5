/** What `read` and `write` do to the blocks of one file, for every offset and length, and
    exactly when that agrees with a positioned read or write. */
module FileImage {
  import opened Wrappers
  import opened Bytes
  import opened Layout

  /** Byte `k` of the file. */
  function ByteAt(img: Image, k: nat): byte
    requires k < MAXBYTES
  {
    img[k / BLOCKSIZE][k % BLOCKSIZE]
  }

  function Max(a: nat, b: nat): (m: nat)
    ensures m >= a && m >= b && (m == a || m == b)
  {
    if a >= b then a else b
  }

  // ----- write -----

  /** The chunk loop: `src[p..]` in pieces of 512, each at the start of the block of its index in `src`. */
  function PutChunks(img: Image, src: seq<byte>, p: nat): Image
    requires |src| <= MAXBYTES
    decreases |src| - p
  {
    if p >= |src| then img
    else
      var e := Min(p + BLOCKSIZE, |src|);
      PutChunks(img[p / BLOCKSIZE := Overlay(img[p / BLOCKSIZE], 0, src[p..e])], src, e)
  }

  /** The part of `src` that lands in the first block. */
  function FirstPart(src: seq<byte>, offset: nat): seq<byte> {
    src[..Min(|src|, BLOCKSIZE - offset % BLOCKSIZE)]
  }

  /** The offset after the first block: a read-modify-write counts as a whole block. */
  function Advanced(n: nat, offset: nat): nat {
    offset + if offset % BLOCKSIZE != 0 then BLOCKSIZE else Min(BLOCKSIZE, n)
  }

  function WriteFirst(img: Image, src: seq<byte>, offset: nat): Image
    requires offset < MAXBYTES
  {
    img[offset / BLOCKSIZE := Overlay(img[offset / BLOCKSIZE], offset % BLOCKSIZE, FirstPart(src, offset))]
  }

  function WriteImage(img: Image, src: seq<byte>, offset: nat): Image
    requires offset < MAXBYTES && offset + |src| <= MAXBYTES
  {
    PutChunks(WriteFirst(img, src, offset), src, Advanced(|src|, offset))
  }

  function WriteSize(size: nat, n: nat, offset: nat): nat {
    var a := Advanced(n, offset);
    if a >= n then (if a > size then size + n else size) else Max(size, n)
  }

  lemma {:induction false} PutChunksAt(img: Image, src: seq<byte>, p: nat, q: nat, t: nat)
    requires |src| <= MAXBYTES && q < NDIRECT && t < BLOCKSIZE
    ensures var s := BLOCKSIZE * q + t + p % BLOCKSIZE;
            PutChunks(img, src, p)[q][t] == if p / BLOCKSIZE <= q && s < |src| then src[s] else img[q][t]
    decreases |src| - p
  {
    if p < |src| {
      var e := Min(p + BLOCKSIZE, |src|);
      PutChunksAt(img[p / BLOCKSIZE := Overlay(img[p / BLOCKSIZE], 0, src[p..e])], src, e, q, t);
    }
  }

  /** How many blocks the chunk loop must allocate from position `p` on. */
  function Needs(blocks: BlockMap, n: nat, p: nat): nat
    requires n <= MAXBYTES
    decreases n - p
  {
    if p >= n then 0
    else (if blocks[p / BLOCKSIZE] == 0 then 1 else 0) + Needs(blocks, n, Min(p + BLOCKSIZE, n))
  }

  function WriteNeeds(blocks: BlockMap, n: nat, offset: nat): nat
    requires n <= MAXBYTES && offset < MAXBYTES
  {
    (if blocks[offset / BLOCKSIZE] == 0 then 1 else 0) + Needs(blocks, n, Advanced(n, offset))
  }

  lemma {:induction false} NeedsLater(blocks: BlockMap, q: nat, b: u32, n: nat, p: nat)
    requires n <= MAXBYTES && q < NDIRECT && (q < p / BLOCKSIZE || p >= n)
    ensures Needs(blocks[q := b], n, p) == Needs(blocks, n, p)
    decreases n - p
  {
    if p < n {
      NeedsLater(blocks, q, b, n, Min(p + BLOCKSIZE, n));
    }
  }

  /** One turn of the chunk loop, which maps block `p / 512` at `b`. */
  lemma ChunkStep(blocks: BlockMap, n: nat, p: nat, b: u32)
    requires p < n <= MAXBYTES
    ensures var e, q := Min(p + BLOCKSIZE, n), p / BLOCKSIZE;
            Needs(blocks, n, p) == (if blocks[q] == 0 then 1 else 0) + Needs(blocks[q := b], n, e)
  {
    NeedsLater(blocks, p / BLOCKSIZE, b, n, Min(p + BLOCKSIZE, n));
  }

  /** How far the chunk loop gets from position `p` with `nfree` free blocks. */
  function StopAt(blocks: BlockMap, n: nat, nfree: nat, p: nat): (s: nat)
    requires n <= MAXBYTES
    ensures s <= n && (s < n ==> p <= s)
    ensures s == n <==> Needs(blocks, n, p) <= nfree
    decreases n - p
  {
    if p >= n then n
    else if blocks[p / BLOCKSIZE] != 0 then StopAt(blocks, n, nfree, Min(p + BLOCKSIZE, n))
    else if nfree == 0 then p
    else StopAt(blocks, n, nfree - 1, Min(p + BLOCKSIZE, n))
  }

  /** How much of a write is done before the blocks run out: all of it, or a prefix. */
  function WriteStop(blocks: BlockMap, n: nat, nfree: nat, offset: nat): (s: nat)
    requires n <= MAXBYTES && offset < MAXBYTES
    ensures s <= n && (WriteNeeds(blocks, n, offset) <= nfree ==> s == n)
  {
    if blocks[offset / BLOCKSIZE] != 0 then StopAt(blocks, n, nfree, Advanced(n, offset))
    else if nfree == 0 then 0
    else StopAt(blocks, n, nfree - 1, Advanced(n, offset))
  }

  lemma {:induction false} StopLater(blocks: BlockMap, q: nat, b: u32, n: nat, nfree: nat, p: nat)
    requires n <= MAXBYTES && q < NDIRECT && (q < p / BLOCKSIZE || p >= n)
    ensures StopAt(blocks[q := b], n, nfree, p) == StopAt(blocks, n, nfree, p)
    decreases n - p
  {
    if p < n {
      var e := Min(p + BLOCKSIZE, n);
      StopLater(blocks, q, b, n, nfree, e);
      if nfree > 0 { StopLater(blocks, q, b, n, nfree - 1, e); }
    }
  }

  /** One turn of the chunk loop, seen from the stopping point. */
  lemma StopStep(blocks: BlockMap, n: nat, nfree: nat, p: nat, b: u32)
    requires p < n <= MAXBYTES
    ensures var e, q := Min(p + BLOCKSIZE, n), p / BLOCKSIZE;
            StopAt(blocks, n, nfree, p) ==
              if blocks[q] != 0 then StopAt(blocks[q := b], n, nfree, e)
              else if nfree == 0 then p
              else StopAt(blocks[q := b], n, nfree - 1, e)
  {
    var e := Min(p + BLOCKSIZE, n);
    StopLater(blocks, p / BLOCKSIZE, b, n, nfree, e);
    if nfree > 0 { StopLater(blocks, p / BLOCKSIZE, b, n, nfree - 1, e); }
  }

  /** The chunks of `src[..e]` from `p0` on are those of `src[..p]` and one more. */
  lemma {:induction false} ChunkSnoc(img: Image, src: seq<byte>, p0: nat, p: nat)
    requires p0 <= p < |src| <= MAXBYTES && (p - p0) % BLOCKSIZE == 0
    ensures var e, q := Min(p + BLOCKSIZE, |src|), p / BLOCKSIZE;
            var done := PutChunks(img, src[..p], p0);
            PutChunks(img, src[..e], p0) == done[q := Overlay(done[q], 0, src[p..e])]
    decreases p - p0
  {
    hide Overlay;
    var e := Min(p + BLOCKSIZE, |src|);
    if p0 == p {
      assert src[..e][p..e] == src[p..e];
      assert PutChunks(img[p / BLOCKSIZE := Overlay(img[p / BLOCKSIZE], 0, src[p..e])], src[..e], e)
          == img[p / BLOCKSIZE := Overlay(img[p / BLOCKSIZE], 0, src[p..e])];
    } else {
      var e0, q0 := p0 + BLOCKSIZE, p0 / BLOCKSIZE;
      var img1 := img[q0 := Overlay(img[q0], 0, src[p0..e0])];
      assert src[..p][p0..e0] == src[p0..e0] && src[..e][p0..e0] == src[p0..e0];
      ChunkSnoc(img1, src, e0, p);
    }
  }

  /** The part of a write before its stopping point is the write of that part. */
  lemma WritePrefix(img: Image, src: seq<byte>, offset: nat, s: nat)
    requires offset < MAXBYTES && offset + |src| <= MAXBYTES && s <= |src|
    requires s == |src| || Advanced(|src|, offset) <= s
    ensures PutChunks(WriteFirst(img, src, offset), src[..s], Advanced(|src|, offset)) == WriteImage(img, src[..s], offset)
    ensures Advanced(s, offset) == Advanced(|src|, offset)
  {
    hide PutChunks, Overlay;
    assert s == |src| ==> src[..s] == src;
    assert FirstPart(src[..s], offset) == FirstPart(src, offset);
  }

  /** The write has been carried out, for all of `src` or for the part before its stopping point. */
  ghost predicate Carried(ino: Inode, img: Image, src: seq<byte>, nfree: nat, offset: nat, blocks': BlockMap, img': Image, nfree': nat)
    requires offset < MAXBYTES && offset + |src| <= MAXBYTES
  {
    var needs := WriteNeeds(ino.blocks, |src|, offset);
    var part := if needs <= nfree then src else src[..WriteStop(ino.blocks, |src|, nfree, offset)];
    && img' == WriteImage(img, part, offset)
    && nfree' == (if needs <= nfree then nfree - needs else 0)
    && if ino.blocks[offset / BLOCKSIZE] == 0 && nfree == 0 then blocks' == ino.blocks
       else TouchedMapped(ino.blocks, |part|, offset, blocks')
  }

  /** The blocks that a write of `n` bytes touches are mapped, and no others have changed. */
  ghost predicate TouchedMapped(blocks: BlockMap, n: nat, offset: nat, blocks': BlockMap) {
    forall q :: 0 <= q < NDIRECT ==> if Touched(n, offset, q) then blocks'[q] != 0 else blocks'[q] == blocks[q]
  }

  /** The chunk loop at position `p`, having started at `p0`: the part of `src` before `p` is written. */
  ghost predicate ChunksTo(blocks0: BlockMap, img0: Image, src: seq<byte>, p0: nat, nfree0: nat,
                           blocks: BlockMap, img: Image, p: nat, nfree: nat)
    requires |src| <= MAXBYTES
  {
    && (p < |src| ==> p0 <= p && (p - p0) % BLOCKSIZE == 0)
    && img == PutChunks(img0, src[..Min(p, |src|)], p0)
    && nfree - Needs(blocks, |src|, p) == nfree0 - Needs(blocks0, |src|, p0)
    && StopAt(blocks, |src|, nfree, p) == StopAt(blocks0, |src|, nfree0, p0)
    && VisitedMapped(blocks0, p0, Min(p, |src|), blocks)
  }

  /** The blocks of the chunks from `p` to `n` are mapped, and no others have changed. */
  ghost predicate VisitedMapped(blocks0: BlockMap, p: nat, n: nat, blocks: BlockMap) {
    forall q :: 0 <= q < NDIRECT ==> if InChunks(p, n, q) then blocks[q] != 0 else blocks[q] == blocks0[q]
  }

  /** The chunk loop has ended, with all chunks written or with no block left for the next one. */
  ghost predicate ChunksEnd(blocks0: BlockMap, img0: Image, src: seq<byte>, p0: nat, nfree0: nat,
                            blocks: BlockMap, img: Image, nfree: nat)
    requires |src| <= MAXBYTES
  {
    var stop := StopAt(blocks0, |src|, nfree0, p0);
    && img == PutChunks(img0, src[..stop], p0)
    && nfree == (if Needs(blocks0, |src|, p0) <= nfree0 then nfree0 - Needs(blocks0, |src|, p0) else 0)
    && VisitedMapped(blocks0, p0, stop, blocks)
  }

  lemma ChunksStart(blocks: BlockMap, img: Image, src: seq<byte>, p: nat, nfree: nat)
    requires |src| <= MAXBYTES
    ensures ChunksTo(blocks, img, src, p, nfree, blocks, img, p, nfree)
  {
    hide Needs, StopAt;
    ChunksDone(img, src[..Min(p, |src|)], p);
  }

  lemma ChunksNext(blocks0: BlockMap, img0: Image, src: seq<byte>, p0: nat, nfree0: nat,
                   blocks: BlockMap, img: Image, p: nat, nfree: nat, b: u32)
    requires p < |src| <= MAXBYTES && ChunksTo(blocks0, img0, src, p0, nfree0, blocks, img, p, nfree)
    requires b != 0 && if blocks[p / BLOCKSIZE] == 0 then nfree > 0 else b == blocks[p / BLOCKSIZE]
    ensures var e, q := Min(p + BLOCKSIZE, |src|), p / BLOCKSIZE;
            ChunksTo(blocks0, img0, src, p0, nfree0, blocks[q := b], img[q := Overlay(img[q], 0, src[p..e])], e,
                     nfree - if blocks[q] == 0 then 1 else 0)
  {
    hide Needs, StopAt, PutChunks, Overlay;
    ChunkStep(blocks, |src|, p, b);
    StopStep(blocks, |src|, nfree, p, b);
    ChunkSnoc(img0, src, p0, p);
    ChunkIndex(p0, p, |src|);
  }

  /** The block of the chunk at `p`, among those of the chunks from `p0` on. */
  lemma ChunkIndex(p0: nat, p: nat, n: nat)
    requires p0 <= p < n && (p - p0) % BLOCKSIZE == 0
    ensures BLOCKSIZE * (p / BLOCKSIZE) + p0 % BLOCKSIZE == p && p0 / BLOCKSIZE <= p / BLOCKSIZE
    ensures Min(p + BLOCKSIZE, n) < n ==> (Min(p + BLOCKSIZE, n) - p0) % BLOCKSIZE == 0
  {
    var k := (p - p0) / BLOCKSIZE;
    assert p - p0 == BLOCKSIZE * k;
    BlocksOn(p0, k);
    BlocksOn(0, k + 1);
  }

  lemma BlocksOn(p: nat, k: nat)
    ensures (p + BLOCKSIZE * k) / BLOCKSIZE == p / BLOCKSIZE + k && (p + BLOCKSIZE * k) % BLOCKSIZE == p % BLOCKSIZE
  {
  }

  lemma ChunksOver(blocks0: BlockMap, img0: Image, src: seq<byte>, p0: nat, nfree0: nat,
                   blocks: BlockMap, img: Image, p: nat, nfree: nat)
    requires |src| <= MAXBYTES && ChunksTo(blocks0, img0, src, p0, nfree0, blocks, img, p, nfree)
    requires p >= |src| || (blocks[p / BLOCKSIZE] == 0 && nfree == 0)
    ensures ChunksEnd(blocks0, img0, src, p0, nfree0, blocks, img, nfree)
    ensures p >= |src| <==> Needs(blocks0, |src|, p0) <= nfree0
  {
    hide PutChunks;
  }

  /** First block, mapped at `b`, and chunk loop make up the write. */
  lemma CarriedOut(ino: Inode, img: Image, src: seq<byte>, nfree: nat, offset: nat, b: u32, blocks1: BlockMap, nfree1: nat,
                   blocks': BlockMap, img': Image, nfree': nat)
    requires offset < MAXBYTES && offset + |src| <= MAXBYTES
    requires b != 0 && if ino.blocks[offset / BLOCKSIZE] == 0 then nfree > 0 else b == ino.blocks[offset / BLOCKSIZE]
    requires blocks1 == ino.blocks[offset / BLOCKSIZE := b]
    requires nfree1 == nfree - if ino.blocks[offset / BLOCKSIZE] == 0 then 1 else 0
    requires ChunksEnd(blocks1, WriteFirst(img, src, offset), src, Advanced(|src|, offset), nfree1, blocks', img', nfree')
    ensures Carried(ino, img, src, nfree, offset, blocks', img', nfree')
    ensures WriteNeeds(ino.blocks, |src|, offset) <= nfree <==> Needs(blocks1, |src|, Advanced(|src|, offset)) <= nfree1
  {
    hide PutChunks, Needs, StopAt, WriteImage, WriteFirst, Advanced, TouchedMapped, WriteNeeds, WriteStop,
      VisitedMapped;
    FirstCounts(ino.blocks, |src|, nfree, offset, b);
    var stop := WriteStop(ino.blocks, |src|, nfree, offset);
    WritePrefix(img, src, offset, stop);
    FirstMapped(ino.blocks, b, stop, offset, Advanced(|src|, offset), blocks');
    if WriteNeeds(ino.blocks, |src|, offset) <= nfree {
      assert src[..stop] == src;
    }
  }

  /** What is left to count once the first block is mapped at `b`. */
  lemma FirstCounts(blocks: BlockMap, n: nat, nfree: nat, offset: nat, b: u32)
    requires offset < MAXBYTES && n <= MAXBYTES
    requires b != 0 && if blocks[offset / BLOCKSIZE] == 0 then nfree > 0 else b == blocks[offset / BLOCKSIZE]
    ensures var q, p := offset / BLOCKSIZE, Advanced(n, offset);
            var one := if blocks[q] == 0 then 1 else 0;
            var s := WriteStop(blocks, n, nfree, offset);
            && s == StopAt(blocks[q := b], n, nfree - one, p) && (s == n || p <= s)
            && WriteNeeds(blocks, n, offset) == one + Needs(blocks[q := b], n, p)
  {
    hide Needs, StopAt, Advanced;
    AdvancedPast(n, offset);
    var q, p := offset / BLOCKSIZE, Advanced(n, offset);
    NeedsLater(blocks, q, b, n, p);
    StopLater(blocks, q, b, n, nfree - if blocks[q] == 0 then 1 else 0, p);
  }

  lemma FirstMapped(blocks: BlockMap, b: u32, n: nat, offset: nat, p: nat, blocks': BlockMap)
    requires offset < MAXBYTES && p == Advanced(n, offset) && b != 0
    requires blocks[offset / BLOCKSIZE] == 0 || blocks[offset / BLOCKSIZE] == b
    requires VisitedMapped(blocks[offset / BLOCKSIZE := b], p, n, blocks')
    ensures TouchedMapped(blocks, n, offset, blocks')
  {
    hide InChunks, Advanced;
  }

  /** After the first block the write is in a later one, or done. */
  lemma AdvancedPast(n: nat, offset: nat)
    ensures offset / BLOCKSIZE < Advanced(n, offset) / BLOCKSIZE || Advanced(n, offset) >= n
  {
  }

  /** Nothing at all is written when not even the first block is to be had. */
  lemma NotCarried(ino: Inode, img: Image, src: seq<byte>, offset: nat)
    requires offset < MAXBYTES && offset + |src| <= MAXBYTES && ino.blocks[offset / BLOCKSIZE] == 0
    ensures Carried(ino, img, src, 0, offset, ino.blocks, img, 0) && WriteNeeds(ino.blocks, |src|, offset) > 0
  {
    var q := offset / BLOCKSIZE;
    assert Overlay(img[q], offset % BLOCKSIZE, []) == img[q];
    assert FirstPart(src[..0], offset) == [];
    ChunksDone(img, src[..0], Advanced(0, offset));
  }

  lemma ChunksDone(img: Image, src: seq<byte>, p: nat)
    requires |src| <= MAXBYTES && p >= |src|
    ensures PutChunks(img, src, p) == img
  {
  }

  /** The blocks that the chunk loop visits from position `p` on. */
  predicate InChunks(p: nat, n: nat, q: nat) {
    p / BLOCKSIZE <= q && BLOCKSIZE * q + p % BLOCKSIZE < n
  }

  /** The blocks a write maps. */
  predicate Touched(n: nat, offset: nat, q: nat) {
    q == offset / BLOCKSIZE || InChunks(Advanced(n, offset), n, q)
  }

  /** A new file of `n` bytes takes ceil(n / 512) blocks, and an empty one still takes one. */
  lemma FreshNeeds(n: nat)
    requires n <= MAXBYTES
    ensures WriteNeeds(ZeroWords(NDIRECT), n, 0) == Max(1, (n + BLOCKSIZE - 1) / BLOCKSIZE)
  {
    FreshNeedsFrom(n, Advanced(n, 0));
  }

  lemma {:induction false} FreshNeedsFrom(n: nat, p: nat)
    requires n <= MAXBYTES
    ensures Needs(ZeroWords(NDIRECT), n, p) == if p >= n then 0 else (n - p + BLOCKSIZE - 1) / BLOCKSIZE
    decreases n - p
  {
    if p < n {
      FreshNeedsFrom(n, Min(p + BLOCKSIZE, n));
    }
  }

  /** An inode while a write is under way: only unmapped blocks have been filled in. */
  predicate Extends(ino: Inode, ino': Inode) {
    && ino' == ino.(blocks := ino'.blocks)
    && forall q :: 0 <= q < NDIRECT && ino.blocks[q] != 0 ==> ino'.blocks[q] == ino.blocks[q]
  }

  lemma ExtendsTrans(ino: Inode, ino1: Inode, ino2: Inode)
    requires Extends(ino, ino1) && Extends(ino1, ino2)
    ensures Extends(ino, ino2)
  {
  }

  lemma ExtendsAt(ino: Inode, ino': Inode, q: nat)
    requires Extends(ino, ino') && q < NDIRECT
    ensures ino'.type_ == ino.type_ && (ino.blocks[q] != 0 ==> ino'.blocks[q] == ino.blocks[q])
  {
  }

  /** The first block of a write as one overlay, and where it leaves the offset. */
  lemma FirstPiece(img: Image, src: seq<byte>, offset: nat)
    requires offset < MAXBYTES
    ensures var q, at := offset / BLOCKSIZE, offset % BLOCKSIZE;
            var piece := src[..Min(|src|, BLOCKSIZE - at)];
            && WriteFirst(img, src, offset) == img[q := Overlay(img[q], at, piece)]
            && Advanced(|src|, offset) == offset + if at == 0 then |piece| else BLOCKSIZE
  {
    hide Overlay;
  }

  function WriteResult(ino: Inode, nfree: nat, n: u32, offset: u32): FsResult<nat>
    requires offset < MAXBYTES || offset > ino.size
  {
    if ino.type_ != FILE && ino.type_ != DIRECTORY then Err(TypeMismatch)
    else if (offset + n) % 0x1_0000_0000 < offset || offset > ino.size then Err(WriteTooLarge)
    else if n + offset > MAXBYTES then Err(WriteTooLarge)
    else if nfree < WriteNeeds(ino.blocks, n, offset) then Err(ExhaustedBlocks)
    else Ok(n)
  }

  /** `write` seen as a positioned write. */
  ghost predicate IsPwrite(img: Image, size: nat, src: seq<byte>, offset: nat, img': Image, size': nat) {
    && size' == Max(size, offset + |src|) <= MAXBYTES
    && forall k :: 0 <= k < size' ==>
         ByteAt(img', k) == if offset <= k < offset + |src| then src[k - offset] else ByteAt(img, k)
  }

  /** The calls on which `write` is a positioned write, whatever the data. */
  predicate WriteIsExact(size: nat, n: nat, offset: nat) {
    var r := offset % BLOCKSIZE;
    || (n <= BLOCKSIZE - r && (offset == size || n == 0 || offset + (if r == 0 then n else BLOCKSIZE) <= size))
    || (offset == 0 && n > BLOCKSIZE)
  }

  /** Every byte of a file after a write, for every offset: in the block of the offset the source goes
      where it should, and every later block gets the source from `offset % 512` bytes further on. */
  lemma WriteByte(img: Image, src: seq<byte>, offset: nat, k: nat)
    requires offset < MAXBYTES && offset + |src| <= MAXBYTES && k < MAXBYTES
    ensures ByteAt(WriteImage(img, src, offset), k) ==
            if k / 512 == offset / 512 && offset <= k < offset + |src| then src[k - offset]
            else if k / 512 > offset / 512 && k + offset % 512 < |src| then src[k + offset % 512]
            else ByteAt(img, k)
  {
    hide PutChunks;
    var a := Advanced(|src|, offset);
    PutChunksAt(WriteFirst(img, src, offset), src, a, k / BLOCKSIZE, k % BLOCKSIZE);
    WriteStart(|src|, offset);
    FirstByte(img, src, offset, k);
  }

  /** Where the chunk loop starts, if it runs at all. */
  lemma WriteStart(n: nat, offset: nat)
    ensures n > offset + 512 ==>
              Advanced(n, offset) == offset + 512 && Advanced(n, offset) / 512 == offset / 512 + 1 && Advanced(n, offset) % 512 == offset % 512
    ensures n <= offset + 512 ==> Advanced(n, offset) >= n
  {
  }

  lemma FirstByte(img: Image, src: seq<byte>, offset: nat, k: nat)
    requires offset < MAXBYTES && k < MAXBYTES
    ensures ByteAt(WriteFirst(img, src, offset), k) ==
            if k / 512 == offset / 512 && offset <= k < offset + |src| then src[k - offset] else ByteAt(img, k)
  {
  }

  /** The size after a write.  Only if the source is longer than the offset and a block does the loop
      set it; otherwise it grows by the length of the source if the first block, taken as a whole
      unless the offset is aligned, ends beyond it. */
  lemma SizeAfterWrite(size: nat, n: nat, offset: nat)
    ensures WriteSize(size, n, offset) ==
            if n > offset + 512 then Max(size, n)
            else if offset + (if offset % 512 != 0 then 512 else Min(512, n)) > size then size + n
            else size
  {
  }

  /** When a write succeeds, and which error it gives otherwise. */
  lemma WriteSucceeds(ino: Inode, nfree: nat, n: u32, offset: u32)
    requires offset < MAXBYTES || offset > ino.size
    ensures WriteResult(ino, nfree, n, offset) == Ok(n) <==>
            && (ino.type_ == 1 || ino.type_ == 2) && offset <= ino.size && offset + n <= 32768
            && offset < 32768 && WriteNeeds(ino.blocks, n, offset) <= nfree
    ensures WriteResult(ino, nfree, n, offset) == Err(TypeMismatch) <==> ino.type_ != 1 && ino.type_ != 2
    ensures WriteResult(ino, nfree, n, offset) == Err(WriteTooLarge) <==>
            (ino.type_ == 1 || ino.type_ == 2) && (offset > ino.size || offset + n > 32768)
  {
  }

  /** When a read succeeds: every block it visits is mapped.  And which error it gives otherwise. */
  lemma ReadSucceeds(ino: Inode, n: u32, offset: u32)
    requires ReadInBounds(ino, n, offset)
    ensures ReadResult(ino, n, offset).Ok? <==>
            && (ino.type_ == 1 || ino.type_ == 2) && offset <= ino.size && offset + n < 0x1_0000_0000
            && forall q :: offset / 512 <= q < ReadEnd(offset, Min(n, ino.size - offset)) && q < NDIRECT ==> ino.blocks[q] != 0
    ensures ReadResult(ino, n, offset).Ok? ==> ReadResult(ino, n, offset) == Ok(Min(n, ino.size - offset))
    ensures ReadResult(ino, n, offset) == Err(TypeMismatch) <==> ino.type_ != 1 && ino.type_ != 2
    ensures ReadResult(ino, n, offset) == Err(ReadTooLarge) <==>
            (ino.type_ == 1 || ino.type_ == 2) && (offset > ino.size || offset + n >= 0x1_0000_0000)
  {
  }

  lemma WriteOneBlock(img: Image, src: seq<byte>, offset: nat, k: nat)
    requires offset < MAXBYTES && offset + |src| <= MAXBYTES && k < MAXBYTES
    requires |src| <= BLOCKSIZE - offset % BLOCKSIZE
    ensures ByteAt(WriteImage(img, src, offset), k) == if offset <= k < offset + |src| then src[k - offset] else ByteAt(img, k)
  {
  }

  lemma WriteFromStart(img: Image, src: seq<byte>, k: nat)
    requires |src| <= MAXBYTES && k < MAXBYTES
    ensures ByteAt(WriteImage(img, src, 0), k) == if k < |src| then src[k] else ByteAt(img, k)
  {
    PutChunksAt(WriteFirst(img, src, 0), src, Advanced(|src|, 0), k / BLOCKSIZE, k % BLOCKSIZE);
  }

  lemma WriteExact(img: Image, size: nat, src: seq<byte>, offset: nat)
    requires offset <= size <= MAXBYTES && offset < MAXBYTES && offset + |src| <= MAXBYTES
    requires WriteIsExact(size, |src|, offset)
    ensures IsPwrite(img, size, src, offset, WriteImage(img, src, offset), WriteSize(size, |src|, offset))
  {
    forall k | 0 <= k < WriteSize(size, |src|, offset)
      ensures k < MAXBYTES &&
              ByteAt(WriteImage(img, src, offset), k) == if offset <= k < offset + |src| then src[k - offset] else ByteAt(img, k)
    {
      if |src| <= BLOCKSIZE - offset % BLOCKSIZE {
        WriteOneBlock(img, src, offset, k);
      } else {
        WriteFromStart(img, src, k);
      }
    }
  }

  const ZERO_IMAGE: Image := BlankBlocks()

  /** A source whose only non-zero byte is the first that does not fit the first block. */
  function Marker(n: nat, r: nat): (src: seq<byte>)
    requires r < BLOCKSIZE
    ensures |src| == n && forall i :: 0 <= i < n ==> src[i] == if i == BLOCKSIZE - r then 1 else 0
  {
    seq(n, i requires 0 <= i < n => if i == BLOCKSIZE - r then 1 else 0)
  }

  /** The first byte beyond the first block: the loop, if it runs, takes it from the wrong place. */
  lemma ByteAfterFirst(src: seq<byte>, offset: nat)
    requires offset < MAXBYTES && offset + |src| <= MAXBYTES && |src| > BLOCKSIZE - offset % BLOCKSIZE
    ensures var k := offset + BLOCKSIZE - offset % BLOCKSIZE;
            k < MAXBYTES && ByteAt(WriteImage(ZERO_IMAGE, src, offset), k) ==
              if offset + BLOCKSIZE < |src| then src[offset + BLOCKSIZE] else 0
  {
    hide PutChunks;
    var q := offset / BLOCKSIZE + 1;
    PutChunksAt(WriteFirst(ZERO_IMAGE, src, offset), src, Advanced(|src|, offset), q, 0);
  }

  lemma WriteInexact(size: nat, n: nat, offset: nat)
    requires offset <= size <= MAXBYTES && offset < MAXBYTES && offset + n <= MAXBYTES
    requires !WriteIsExact(size, n, offset)
    ensures var src := Marker(n, offset % BLOCKSIZE);
            !IsPwrite(ZERO_IMAGE, size, src, offset, WriteImage(ZERO_IMAGE, src, offset), WriteSize(size, n, offset))
  {
    hide WriteImage, ByteAt;
    var src := Marker(n, offset % BLOCKSIZE);
    if n > BLOCKSIZE - offset % BLOCKSIZE {
      ByteAfterFirst(src, offset);
      var k := offset + BLOCKSIZE - offset % BLOCKSIZE;
      assert src[k - offset] == 1 && ByteAt(WriteImage(ZERO_IMAGE, src, offset), k) == 0;
    }
  }

  /** `write` is a positioned write on every file content exactly for these sizes and offsets. */
  lemma WriteExactness(size: nat, n: nat, offset: nat)
    requires offset <= size <= MAXBYTES && offset < MAXBYTES && offset + n <= MAXBYTES
    ensures WriteIsExact(size, n, offset) <==>
            forall img: Image, src: seq<byte> :: |src| == n ==>
              IsPwrite(img, size, src, offset, WriteImage(img, src, offset), WriteSize(size, n, offset))
  {
    if WriteIsExact(size, n, offset) {
      forall img: Image, src: seq<byte> | |src| == n
        ensures IsPwrite(img, size, src, offset, WriteImage(img, src, offset), WriteSize(size, n, offset))
      {
        WriteExact(img, size, src, offset);
      }
    } else {
      WriteInexact(size, n, offset);
    }
  }

  /** For instance, rewriting 50 bytes inside a file of 100 makes its size 150. */
  lemma OverwriteGrows()
    ensures !WriteIsExact(100, 50, 10) && WriteSize(100, 50, 10) == 150
  {
  }

  // ----- read -----

  /** Byte `i` of the buffer after a successful read of `len` bytes at `offset` into `dst`. */
  function ReadByte(img: Image, dst: seq<byte>, offset: nat, len: nat, i: nat): byte
    requires len <= |dst| && offset < MAXBYTES && ReadEnd(offset, len) <= NDIRECT && i < |dst|
  {
    var q, r := offset / BLOCKSIZE, offset % BLOCKSIZE;
    if i >= len then dst[i]
    else if i < BLOCKSIZE - r then img[q][r + i]
    else if BLOCKSIZE * (q + 1) >= len || i < BLOCKSIZE then dst[i]
    else img[q + i / BLOCKSIZE][i % BLOCKSIZE]
  }

  function FirstUnmapped(blocks: BlockMap, lo: nat, hi: nat): (q: nat)
    requires lo <= hi <= NDIRECT
    ensures lo <= q <= hi && (q < hi ==> blocks[q] == 0) && forall k :: lo <= k < q ==> blocks[k] != 0
    decreases hi - lo
  {
    if lo == hi || blocks[lo] == 0 then lo else FirstUnmapped(blocks, lo + 1, hi)
  }

  /** How many bytes a read returns: as many as asked for, or all up to the end of the file. */
  function ReadLen(size: nat, n: nat, offset: nat): (len: nat)
    requires offset <= size
    ensures len <= n && offset + len <= size && (len == n || offset + len == size)
  {
    if offset + n > size then size - offset else n
  }

  /** One past the last block a read of `len` bytes visits. */
  function ReadEnd(offset: nat, len: nat): nat {
    var q := offset / BLOCKSIZE;
    if BLOCKSIZE * (q + 1) >= len then q + 1 else q + (len + BLOCKSIZE - 1) / BLOCKSIZE
  }

  /** The checks at the start of `read` pass. */
  predicate ReadAllowed(ino: Inode, n: u32, offset: u32) {
    (ino.type_ == FILE || ino.type_ == DIRECTORY) && offset <= ino.size && (offset + n) % 0x1_0000_0000 >= offset
  }

  /** The blocks a read visits are inside the 64 slots of the inode, or an unmapped one comes first. */
  predicate BlocksInBounds(blocks: BlockMap, offset: nat, len: nat) {
    offset < MAXBYTES && (ReadEnd(offset, len) <= NDIRECT || FirstUnmapped(blocks, offset / BLOCKSIZE, NDIRECT) < NDIRECT)
  }

  /** What the code demands of a read, lest it index past the block slots.  It is a condition only
      for sizes beyond 64 blocks, which an overwrite near the end of a file can leave behind. */
  predicate ReadInBounds(ino: Inode, n: u32, offset: u32) {
    ReadAllowed(ino, n, offset) ==> BlocksInBounds(ino.blocks, offset, ReadLen(ino.size, n, offset))
  }

  lemma SmallInBounds(ino: Inode, n: u32, offset: u32)
    requires ino.size <= MAXBYTES && (offset < MAXBYTES || offset > ino.size)
    ensures ReadInBounds(ino, n, offset)
  {
    if ReadAllowed(ino, n, offset) { EndInBounds(offset, ReadLen(ino.size, n, offset)); }
  }

  /** The first unmapped block among those to be read is an error. */
  function BlocksRead(blocks: BlockMap, offset: nat, len: nat): FsResult<nat>
    requires offset < MAXBYTES
  {
    var end := Min(ReadEnd(offset, len), NDIRECT);
    var hole := FirstUnmapped(blocks, offset / BLOCKSIZE, end);
    if hole < end then Err(BlockNotMapped(hole)) else Ok(len)
  }

  function ReadResult(ino: Inode, n: u32, offset: u32): FsResult<nat>
    requires ReadInBounds(ino, n, offset)
  {
    if ino.type_ != FILE && ino.type_ != DIRECTORY then Err(TypeMismatch)
    else if !ReadAllowed(ino, n, offset) then Err(ReadTooLarge)
    else BlocksRead(ino.blocks, offset, ReadLen(ino.size, n, offset))
  }

  /** The first block of a read, then the blocks of its loop. */
  lemma BlocksReadSteps(blocks: BlockMap, offset: nat, len: nat)
    requires BlocksInBounds(blocks, offset, len)
    ensures var q := offset / BLOCKSIZE;
            blocks[q] == 0 ==> BlocksRead(blocks, offset, len) == Err(BlockNotMapped(q))
    ensures var q := offset / BLOCKSIZE;
            BLOCKSIZE * (q + 1) >= len && blocks[q] != 0 ==> BlocksRead(blocks, offset, len) == Ok(len) && ReadEnd(offset, len) == q + 1
    ensures var q, c := offset / BLOCKSIZE, (len + BLOCKSIZE - 1) / BLOCKSIZE;
            BLOCKSIZE * (q + 1) < len && blocks[q] != 0 ==>
              && q + 1 <= Min(q + c, NDIRECT) && ReadEnd(offset, len) == q + c
              && (q + c <= NDIRECT || FirstUnmapped(blocks, q + 1, NDIRECT) < NDIRECT)
              && BlocksRead(blocks, offset, len) == LoopRead(blocks, q, Min(q + c, NDIRECT), len)
  {
  }

  function LoopRead(blocks: BlockMap, q: nat, end: nat, len: nat): FsResult<nat>
    requires q + 1 <= end <= NDIRECT
  {
    var hole := FirstUnmapped(blocks, q + 1, end);
    if hole < end then Err(BlockNotMapped(hole)) else Ok(len)
  }

  /** The loop of `read` is at block `q + j` and has found all blocks so far mapped. */
  lemma ReadGoesOn(blocks: BlockMap, q: nat, j: nat, len: nat)
    requires q < NDIRECT && 1 <= j && BLOCKSIZE * j < len && q + j <= NDIRECT
    requires q + (len + BLOCKSIZE - 1) / BLOCKSIZE <= NDIRECT || FirstUnmapped(blocks, q + 1, NDIRECT) < NDIRECT
    requires forall k :: q + 1 <= k < q + j ==> blocks[k] != 0
    ensures q + j < NDIRECT && q + j < q + (len + BLOCKSIZE - 1) / BLOCKSIZE
  {
    var h := FirstUnmapped(blocks, q + 1, NDIRECT);
  }

  /** The buffer after the first block, and after the loop. */
  lemma ReadBytes(img: Image, dst: seq<byte>, first: seq<byte>, offset: nat, len: nat)
    requires len <= |dst| == |first| && offset < MAXBYTES && ReadEnd(offset, len) <= NDIRECT
    requires first == Overlay(dst, 0, img[offset / BLOCKSIZE][offset % BLOCKSIZE..offset % BLOCKSIZE + Min(len, BLOCKSIZE - offset % BLOCKSIZE)])
    ensures forall i :: 0 <= i < |dst| ==>
              ReadByte(img, dst, offset, len, i) ==
                if BLOCKSIZE * (offset / BLOCKSIZE + 1) < len && BLOCKSIZE <= i < len
                then img[offset / BLOCKSIZE + i / BLOCKSIZE][i % BLOCKSIZE] else first[i]
  {
  }

  /** The calls on which `read` returns the file's bytes, whatever the buffer held. */
  predicate ReadIsExact(offset: nat, len: nat) {
    || len <= BLOCKSIZE - offset % BLOCKSIZE
    || (offset % BLOCKSIZE == 0 && offset + BLOCKSIZE < len)
  }

  lemma EndInBounds(offset: nat, len: nat)
    requires offset + len <= MAXBYTES && offset < MAXBYTES
    ensures ReadEnd(offset, len) <= NDIRECT
  {
  }

  lemma ReadExact(img: Image, dst: seq<byte>, offset: nat, len: nat, i: nat)
    requires i < len <= |dst| && offset + len <= MAXBYTES && ReadEnd(offset, len) <= NDIRECT
    requires ReadIsExact(offset, len)
    ensures ReadByte(img, dst, offset, len, i) == ByteAt(img, offset + i)
  {
  }

  /** `read` returns the file's bytes for every content and buffer exactly for these calls. */
  lemma ReadExactness(offset: nat, len: nat)
    requires offset + len <= MAXBYTES && offset < MAXBYTES
    ensures ReadEnd(offset, len) <= NDIRECT
    ensures ReadIsExact(offset, len) <==>
            forall img: Image, dst: seq<byte>, i: nat :: i < len <= |dst| ==>
              ReadByte(img, dst, offset, len, i) == ByteAt(img, offset + i)
  {
    EndInBounds(offset, len);
    if ReadIsExact(offset, len) {
      forall img: Image, dst: seq<byte>, i: nat | i < len <= |dst|
        ensures ReadByte(img, dst, offset, len, i) == ByteAt(img, offset + i)
      {
        ReadExact(img, dst, offset, len, i);
      }
    } else {
      var dst: seq<byte> := seq(len, _ => 1);
      var i := BLOCKSIZE - offset % BLOCKSIZE;
      assert ReadByte(ZERO_IMAGE, dst, offset, len, i) == 1;
      assert ByteAt(ZERO_IMAGE, offset + i) == 0;
    }
  }

  /** For instance, a read of 512 bytes at offset 1 leaves the last byte of the buffer alone. */
  lemma UnalignedReadStops(img: Image, dst: seq<byte>)
    requires |dst| == BLOCKSIZE
    ensures !ReadIsExact(1, BLOCKSIZE) && ReadByte(img, dst, 1, BLOCKSIZE, BLOCKSIZE - 1) == dst[BLOCKSIZE - 1]
  {
  }
}
