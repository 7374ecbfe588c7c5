/** Directories: 260-byte entries in a file, of which only the part in an entry's first
    block is stored.  A lookup reads the rest as zeros. */
module Directory {
  import opened Wrappers
  import opened Bytes
  import opened Layout
  import opened FileImage

  const DIRENT: nat := 260        // size_of::<DirEntry>()
  const DIRNAME_SIZE: nat := 254

  datatype Entry = Entry(inum: u32, name: seq<byte>)

  /** A name up to its first NUL. */
  function UpToNul(s: seq<byte>): (r: seq<byte>)
    ensures |r| <= |s| && r == s[..|r|] && 0 !in r && (|r| < |s| ==> s[|r|] == 0)
  {
    if s == [] || s[0] == 0 then [] else [s[0]] + UpToNul(s[1..])
  }

  lemma UpToNulUnique(s: seq<byte>, r: seq<byte>)
    requires |r| <= |s| && r == s[..|r|] && 0 !in r && (|r| < |s| ==> s[|r|] == 0)
    ensures r == UpToNul(s)
  {
    var t := UpToNul(s);
    assert |t| == |r|;
  }

  // ----- entries of a directory file -----

  /** How many bytes of entry `k` lie in its first block. */
  function Room(k: nat): (n: nat)
    ensures 4 <= n <= BLOCKSIZE && n == BLOCKSIZE - DIRENT * k % BLOCKSIZE
  {
    assert DIRENT * k % BLOCKSIZE == 4 * (65 * k - 128 * (DIRENT * k / BLOCKSIZE));
    BLOCKSIZE - DIRENT * k % BLOCKSIZE
  }

  /** The 260 bytes a lookup sees for entry `k`. */
  function EntryBytes(img: Image, k: nat): (b: seq<byte>)
    requires DIRENT * k < MAXBYTES
    ensures |b| == DIRENT
  {
    var q, r := DIRENT * k / BLOCKSIZE, DIRENT * k % BLOCKSIZE;
    var n := Min(DIRENT, Room(k));
    img[q][r..r + n] + Zeros(DIRENT - n)
  }

  function DecodeEntry(b: seq<byte>): Entry
    requires |b| == DIRENT
  {
    Entry(WordAt(b, 0), UpToNul(b[4..4 + DIRNAME_SIZE]))
  }

  /** A `DirEntry` as bytes; the two bytes of padding are zero. */
  function EncodeEntry(target: u32, name: seq<byte>): (b: seq<byte>)
    requires |name| <= DIRNAME_SIZE
    ensures |b| == DIRENT
  {
    ToBytes([target]) + name + Zeros(DIRENT - 4 - |name|)
  }

  /** The C layout of a directory entry: the inode number, 254 bytes of name and two of padding. */
  lemma EntryOffsets(target: u32, name: seq<byte>)
    requires |name| <= 254
    ensures var b := EncodeEntry(target, name);
            var b0: int, b1: int, b2: int, b3: int := b[0], b[1], b[2], b[3];
            && |b| == 260 && b0 + 256 * b1 + 65536 * b2 + 16777216 * b3 == target
            && b[4..4 + |name|] == name && forall i :: 4 + |name| <= i < 260 ==> b[i] == 0
  {
    hide ByteOf;
    StoredLittleEndian([target], 0);
    var b := EncodeEntry(target, name);
    assert forall k :: 0 <= k < 4 ==> b[k] == ToBytes([target])[k];
  }

  /** A name that fills its 254 bytes has no terminator. */
  lemma FullName(b: seq<byte>)
    requires |b| == DIRENT && forall i :: 4 <= i < 258 ==> b[i] != 0
    ensures DecodeEntry(b).name == b[4..258]
  {
    UpToNulUnique(b[4..258], b[4..258]);
  }

  ghost function Entries(img: Image, n: nat): (es: seq<Entry>)
    requires DIRENT * n <= MAXBYTES
    ensures |es| == n && forall k :: 0 <= k < n ==> es[k] == DecodeEntry(EntryBytes(img, k))
  {
    seq(n, k requires 0 <= k < n => DecodeEntry(EntryBytes(img, k)))
  }

  // ----- what is stored of a name -----

  /** The name that entry `k` reads back as. */
  function Stored(k: nat, name: seq<byte>): seq<byte> {
    UpToNul(name[..Min(|name|, Room(k) - 4)])
  }

  /** The names that entry `k` stores in full. */
  predicate Fits(k: nat, name: seq<byte>) {
    |name| <= Room(k) - 4 && 0 !in name
  }

  lemma StoredInFull(k: nat, name: seq<byte>)
    ensures Stored(k, name) == name <==> Fits(k, name)
  {
    var s := name[..Min(|name|, Room(k) - 4)];
    if Fits(k, name) {
      assert s == name;
      UpToNulUnique(s, name);
    }
  }

  /** For instance, entry 63 starts four bytes before the end of a block and keeps no byte of its name. */
  lemma NameLost(name: seq<byte>)
    ensures Room(63) == 4 && Stored(63, name) == [] && (Fits(63, name) <==> name == [])
  {
    StoredInFull(63, name);
  }

  lemma DecodeStored(k: nat, target: u32, name: seq<byte>, b: seq<byte>)
    requires |name| <= DIRNAME_SIZE && |b| == DIRENT
    requires forall i :: 0 <= i < DIRENT ==> b[i] == if i < Room(k) then EncodeEntry(target, name)[i] else 0
    ensures DecodeEntry(b) == Entry(target, Stored(k, name))
  {
    assert forall i :: 0 <= i < 4 ==> b[i] == ByteOf(target, i);
    WordOfBytes(target);
    var s, t := b[4..4 + DIRNAME_SIZE], Stored(k, name);
    forall i | 0 <= i < |t| ensures t[i] == s[i] {
      assert t[i] == name[i] == EncodeEntry(target, name)[4 + i];
    }
    UpToNulUnique(s, t);
  }

  /** Writing entry `k`: it reads back as its stored part, and all others read as before. */
  lemma PutEntryAt(img: Image, n: nat, k: nat, target: u32, name: seq<byte>)
    requires k < n && DIRENT * n <= MAXBYTES && |name| <= DIRNAME_SIZE
    ensures Entries(WriteFirst(img, EncodeEntry(target, name), DIRENT * k), n)
            == Entries(img, n)[k := Entry(target, Stored(k, name))]
  {
    hide EntryBytes, EncodeEntry, WriteFirst, DecodeEntry, Stored;
    var src := EncodeEntry(target, name);
    var img' := WriteFirst(img, src, DIRENT * k);
    forall j | 0 <= j < n && j != k ensures EntryBytes(img', j) == EntryBytes(img, j) {
      EntryKept(img, k, src, j);
    }
    EntryWritten(img, k, src);
    DecodeStored(k, target, name, EntryBytes(img', k));
  }

  lemma EntryWritten(img: Image, k: nat, src: seq<byte>)
    requires DIRENT * (k + 1) <= MAXBYTES && |src| == DIRENT
    ensures var b := EntryBytes(WriteFirst(img, src, DIRENT * k), k);
            forall i :: 0 <= i < DIRENT ==> b[i] == if i < Room(k) then src[i] else 0
  {
  }

  lemma EntryKept(img: Image, k: nat, src: seq<byte>, j: nat)
    requires DIRENT * (k + 1) <= MAXBYTES && |src| == DIRENT && j != k && DIRENT * j < MAXBYTES
    ensures EntryBytes(WriteFirst(img, src, DIRENT * k), j) == EntryBytes(img, j)
  {
    var q, r := DIRENT * j / BLOCKSIZE, DIRENT * j % BLOCKSIZE;
    var img' := WriteFirst(img, src, DIRENT * k);
    forall i | r <= i < r + Min(DIRENT, Room(j)) ensures img'[q][i] == img[q][i] {
    }
    assert img'[q][r..r + Min(DIRENT, Room(j))] == img[q][r..r + Min(DIRENT, Room(j))];
  }

  // ----- a directory as a map from names to inodes -----

  /** The first live entry with this name. */
  function Lookup(es: seq<Entry>, name: seq<byte>): (r: Option<nat>)
    ensures r.Some? ==> r.value < |es| && es[r.value].name == name && es[r.value].inum != 0xFFFF_FFFF
    ensures forall k :: 0 <= k < |es| && (r.Some? ==> k < r.value) ==> es[k].name != name || es[k].inum == 0xFFFF_FFFF
  {
    if es == [] then None
    else if es[0].inum != UNUSED_INUM && es[0].name == name then Some(0)
    else match Lookup(es[1..], name)
      case None => None
      case Some(k) => assert forall j :: 0 < j < |es| ==> es[j] == es[1..][j - 1]; Some(k + 1)
  }

  lemma LookupIs(es: seq<Entry>, name: seq<byte>, r: Option<nat>)
    requires r.Some? ==> r.value < |es| && es[r.value].name == name && es[r.value].inum != UNUSED_INUM
    requires forall k :: 0 <= k < |es| && (r.Some? ==> k < r.value) ==> es[k].name != name || es[k].inum == UNUSED_INUM
    ensures Lookup(es, name) == r
  {
  }

  /** `dir_lookup` in terms of the entries. */
  function LookupResult(es: seq<Entry>, name: seq<byte>): FsResult<(u32, nat)> {
    match Lookup(es, name)
    case None => Err(NotFound)
    case Some(k) => Ok((es[k].inum, DIRENT * k))
  }

  /** The directory as a finite map. */
  function Find(es: seq<Entry>, name: seq<byte>): Option<u32> {
    match Lookup(es, name)
    case None => None
    case Some(k) => Some(es[k].inum)
  }

  ghost predicate Live(es: seq<Entry>) {
    forall k :: 0 <= k < |es| ==> es[k].inum != UNUSED_INUM
  }

  /** Where `dir_add` puts a new entry: the first one not in use, or else the end. */
  function FreeEntry(es: seq<Entry>): (k: nat)
    ensures k <= |es| && (k < |es| ==> es[k].inum == UNUSED_INUM) && Live(es[..k])
  {
    if es == [] || es[0].inum == UNUSED_INUM then 0
    else
      var k := FreeEntry(es[1..]);
      assert es[..k + 1] == [es[0]] + es[1..][..k];
      k + 1
  }

  lemma FreeEntryIs(es: seq<Entry>, k: nat)
    requires k <= |es| && (k < |es| ==> es[k].inum == UNUSED_INUM) && Live(es[..k])
    ensures FreeEntry(es) == k
  {
    var f := FreeEntry(es);
    hide FreeEntry;
    PrefixLive(es, f, k);
    PrefixLive(es, k, f);
  }

  lemma PrefixLive(es: seq<Entry>, i: nat, k: nat)
    requires k <= |es| && Live(es[..k])
    ensures i < k ==> es[i].inum != UNUSED_INUM
  {
    if i < k { assert es[..k][i] == es[i]; }
  }

  function PutEntry(es: seq<Entry>, k: nat, e: Entry): seq<Entry>
    requires k <= |es|
  {
    if k < |es| then es[k := e] else es + [e]
  }

  /** Adding a new name, in an unused entry or at the end, is a map update exactly for the names
      that fit their entry. */
  lemma AddIsMapUpdate(es: seq<Entry>, k: nat, name: seq<byte>, target: u32)
    requires Find(es, name).None? && target != UNUSED_INUM && k <= |es| && (k < |es| ==> es[k].inum == UNUSED_INUM)
    ensures var es' := PutEntry(es, k, Entry(target, Stored(k, name)));
            Fits(k, name) <==>
            forall x :: Find(es', x) == if x == name then Some(target) else Find(es, x)
  {
    hide Stored, Fits;
    var e := Entry(target, Stored(k, name));
    var es' := PutEntry(es, k, e);
    StoredInFull(k, name);
    assert forall j :: 0 <= j < |es| && j != k ==> es'[j] == es[j];
    if Stored(k, name) == name {
      forall x ensures Find(es', x) == if x == name then Some(target) else Find(es, x) {
        LookupIs(es', x, if x == name then Some(k) else Lookup(es, x));
      }
    } else {
      LookupIs(es', name, None);
    }
  }

  // ----- runs of additions -----

  /** The entries after adding `adds` at the end, one after the other. */
  ghost function AfterAdds(es: seq<Entry>, adds: seq<Entry>): (r: seq<Entry>)
    ensures |r| == |es| + |adds| && forall k :: 0 <= k < |es| ==> r[k] == es[k]
    ensures forall i :: 0 <= i < |adds| ==> r[|es| + i] == Entry(adds[i].inum, Stored(|es| + i, adds[i].name))
  {
    es + seq(|adds|, i requires 0 <= i < |adds| => Entry(adds[i].inum, Stored(|es| + i, adds[i].name)))
  }

  /** Each name is new at its turn. */
  ghost predicate NewNames(es: seq<Entry>, adds: seq<Entry>) {
    forall i :: 0 <= i < |adds| ==>
      adds[i].inum != UNUSED_INUM && Lookup(AfterAdds(es, adds[..i]), adds[i].name).None?
  }

  /** One more addition. */
  lemma AddsStep(es: seq<Entry>, adds: seq<Entry>, i: nat)
    requires i < |adds|
    ensures AfterAdds(es, adds[..i + 1]) == AfterAdds(es, adds[..i]) + [Entry(adds[i].inum, Stored(|es| + i, adds[i].name))]
  {
    hide Stored;
  }

  lemma NamesStep(es: seq<Entry>, adds: seq<Entry>, i: nat)
    requires i < |adds| && NewNames(es, adds[..i])
    requires adds[i].inum != UNUSED_INUM && Lookup(AfterAdds(es, adds[..i]), adds[i].name).None?
    ensures NewNames(es, adds[..i + 1])
  {
    hide AfterAdds, Lookup;
    var a, b := adds[..i + 1], adds[..i];
    forall j | 0 <= j < |a| ensures a[j].inum != UNUSED_INUM && Lookup(AfterAdds(es, a[..j]), a[j].name).None? {
      assert a[..j] == adds[..j] && a[j] == adds[j];
      if j < i {
        assert b[..j] == adds[..j] && b[j] == adds[j];
      }
    }
  }

  /** Once a name is found, further additions change neither what it finds nor where. */
  lemma FoundStays(es: seq<Entry>, adds: seq<Entry>, name: seq<byte>)
    requires Lookup(es, name).Some?
    ensures LookupResult(AfterAdds(es, adds), name) == LookupResult(es, name)
  {
    LookupIs(AfterAdds(es, adds), name, Lookup(es, name));
  }

  /** Over any run of additions, a name is found with its own target and at its own offset exactly
      when it fits its entry. */
  lemma AddedIsFound(es: seq<Entry>, adds: seq<Entry>, i: nat)
    requires NewNames(es, adds) && i < |adds|
    ensures LookupResult(AfterAdds(es, adds), adds[i].name) == Ok((adds[i].inum, DIRENT * (|es| + i)))
            <==> Fits(|es| + i, adds[i].name)
  {
    hide Stored, Fits;
    var r, before, k := AfterAdds(es, adds), AfterAdds(es, adds[..i]), |es| + i;
    StoredInFull(k, adds[i].name);
    assert r[|es| + i] == Entry(adds[i].inum, Stored(k, adds[i].name));
    forall j | 0 <= j < k ensures r[j] == before[j] {
      if j >= |es| {
        assert r[|es| + (j - |es|)] == before[|es| + (j - |es|)];
      }
    }
    if Stored(k, adds[i].name) == adds[i].name {
      LookupIs(r, adds[i].name, Some(k));
    }
  }

  /** ... and every name that none of the additions stores is found as before, or still not at all. */
  lemma OthersFoundAsBefore(es: seq<Entry>, adds: seq<Entry>, name: seq<byte>)
    requires forall i :: 0 <= i < |adds| ==> Stored(|es| + i, adds[i].name) != name
    ensures LookupResult(AfterAdds(es, adds), name) == LookupResult(es, name)
  {
    hide Stored;
    var r := AfterAdds(es, adds);
    forall k | |es| <= k < |r| ensures r[k].name != name {
      assert r[|es| + (k - |es|)].name == Stored(|es| + (k - |es|), adds[k - |es|].name);
    }
    LookupIs(r, name, Lookup(es, name));
  }

  // ----- directory inodes -----

  /** The blocks of a directory: one for each block in which an entry starts. */
  function DirBlocks(size: nat): nat {
    if size < DIRENT then 0 else (size - DIRENT) / BLOCKSIZE + 1
  }

  ghost predicate IsDir(dir: Inode) {
    && dir.type_ == DIRECTORY && dir.size % DIRENT == 0 && dir.size <= MAXBYTES
    && forall q :: 0 <= q < NDIRECT ==> (dir.blocks[q] != 0 <==> q < DirBlocks(dir.size))
  }

  function Count(dir: Inode): nat { dir.size / DIRENT }

  lemma DirSize(dir: Inode)
    requires IsDir(dir)
    ensures dir.size == DIRENT * Count(dir) <= MAXBYTES && Count(dir) <= 126
  {
  }

  /** What a lookup reads for entry `k` is the entry, padded with zeros. */
  lemma ReadEntry(img: Image, dir: Inode, k: nat, buf: seq<byte>)
    requires IsDir(dir) && DIRENT * k < dir.size && |buf| == DIRENT
    requires DIRENT * k < MAXBYTES && ReadEnd(DIRENT * k, DIRENT) <= NDIRECT
    requires forall i :: 0 <= i < DIRENT ==> buf[i] == ReadByte(img, Zeros(DIRENT), DIRENT * k, DIRENT, i)
    ensures buf == EntryBytes(img, k)
  {
  }

  /** ... and reading it succeeds with all 260 bytes. */
  lemma ReadEntryOk(dir: Inode, k: nat)
    requires IsDir(dir) && DIRENT * k < dir.size
    ensures DIRENT * (k + 1) <= dir.size && DIRENT * k < MAXBYTES && ReadInBounds(dir, DIRENT, DIRENT * k)
    ensures ReadResult(dir, DIRENT, DIRENT * k) == Ok(DIRENT)
  {
    SmallInBounds(dir, DIRENT, DIRENT * k);
  }

  /** Whether rewriting entry `k` of `n` makes the directory longer: a rewrite in mid-block counts
      as a whole block, which takes the last entry beyond the end of the file. */
  predicate Overhangs(n: nat, k: nat) { k + 1 == n && DIRENT * k % BLOCKSIZE != 0 }

  /** Whether the directory is still one then: the entry it seems to have gained must be in bounds
      and start in the block of the last one, for no other is mapped. */
  predicate StaysDir(n: nat, k: nat) {
    Overhangs(n, k) ==> DIRENT * (n + 1) <= MAXBYTES && DIRENT * n / BLOCKSIZE == DIRENT * k / BLOCKSIZE
  }

  /** Writing entry `k` of a directory, or one just past its end: errors, blocks and new size. */
  lemma PutResult(dir: Inode, k: nat, nfree: nat)
    requires IsDir(dir) && k <= Count(dir)
    ensures DIRENT * k < MAXBYTES && DIRENT * k <= dir.size
    ensures k < Count(dir) ==> DIRENT * (k + 1) <= dir.size && dir.blocks[DIRENT * k / BLOCKSIZE] != 0
    ensures WriteResult(dir, nfree, DIRENT, DIRENT * k) ==
            if DIRENT * (k + 1) > MAXBYTES then Err(WriteTooLarge)
            else if dir.blocks[DIRENT * k / BLOCKSIZE] == 0 && nfree == 0 then Err(ExhaustedBlocks)
            else Ok(DIRENT)
    ensures WriteSize(dir.size, DIRENT, DIRENT * k) == dir.size + if k == Count(dir) || Overhangs(Count(dir), k) then DIRENT else 0
    ensures WriteNeeds(dir.blocks, DIRENT, DIRENT * k) == if dir.blocks[DIRENT * k / BLOCKSIZE] == 0 then 1 else 0
  {
    var n := Count(dir);
    assert dir.size == DIRENT * n;
    OneBlockWrite(dir.blocks, k);
  }

  /** An entry is written with its first block: the chunk loop does not run. */
  lemma OneBlockWrite(blocks: BlockMap, k: nat)
    requires DIRENT * k < MAXBYTES
    ensures Advanced(DIRENT, DIRENT * k) >= DIRENT && Needs(blocks, DIRENT, Advanced(DIRENT, DIRENT * k)) == 0
    ensures forall q :: 0 <= q < NDIRECT ==> (Touched(DIRENT, DIRENT * k, q) <==> q == DIRENT * k / BLOCKSIZE)
  {
  }

  lemma PutIsWriteFirst(img: Image, src: seq<byte>, k: nat)
    requires |src| == DIRENT && DIRENT * (k + 1) <= MAXBYTES
    ensures WriteImage(img, src, DIRENT * k) == WriteFirst(img, src, DIRENT * k)
  {
    OneBlockWrite(ZeroWords(NDIRECT), k);
  }

  /** The entries after writing entry `k`. */
  lemma PutEntries(img: Image, n: nat, k: nat, target: u32, name: seq<byte>)
    requires k <= n && DIRENT * n <= MAXBYTES && DIRENT * (k + 1) <= MAXBYTES && |name| <= DIRNAME_SIZE
    ensures Entries(WriteFirst(img, EncodeEntry(target, name), DIRENT * k), Max(n, k + 1))
            == PutEntry(Entries(img, n), k, Entry(target, Stored(k, name)))
  {
    hide EntryBytes, EncodeEntry, WriteFirst, DecodeEntry, Stored;
    PutEntryAt(img, Max(n, k + 1), k, target, name);
  }

  /** The inode after a write of entry `k`: still a directory exactly if `StaysDir` says so. */
  lemma PutIsDir(dir: Inode, dir': Inode, k: nat)
    requires IsDir(dir) && k <= Count(dir) && Extends(dir, dir'.(size := dir.size))
    requires DIRENT * (k + 1) <= MAXBYTES && dir'.blocks[DIRENT * k / BLOCKSIZE] != 0
    requires dir'.size == dir.size + if k == Count(dir) || Overhangs(Count(dir), k) then DIRENT else 0
    requires forall q :: 0 <= q < NDIRECT && q != DIRENT * k / BLOCKSIZE ==> dir'.blocks[q] == dir.blocks[q]
    ensures IsDir(dir') <==> StaysDir(Count(dir), k)
    ensures Count(dir') == Count(dir) + if dir'.size == dir.size then 0 else 1
  {
    if k < Count(dir) {
      RewriteIsDir(dir, dir', k);
    } else {
      AppendIsDir(dir, dir');
    }
  }

  lemma AppendIsDir(dir: Inode, dir': Inode)
    requires IsDir(dir) && Extends(dir, dir'.(size := dir.size)) && dir'.size == dir.size + DIRENT <= MAXBYTES
    requires dir'.blocks[dir.size / BLOCKSIZE] != 0
    requires forall q :: 0 <= q < NDIRECT && q != dir.size / BLOCKSIZE ==> dir'.blocks[q] == dir.blocks[q]
    ensures IsDir(dir')
  {
    hide DirBlocks;
    var n := Count(dir);
    DirSize(dir);
    SizeStep(n);
    DirBlocksAt(n);
    DirBlocksAt(n + 1);
  }

  lemma SizeStep(n: nat)
    ensures DIRENT * (n + 1) % DIRENT == 0 && DIRENT * (n + 1) / DIRENT == n + 1
  {
  }

  lemma RewriteIsDir(dir: Inode, dir': Inode, k: nat)
    requires IsDir(dir) && k < Count(dir) && Extends(dir, dir'.(size := dir.size))
    requires dir'.size == dir.size + if Overhangs(Count(dir), k) then DIRENT else 0
    requires forall q :: 0 <= q < NDIRECT && q != DIRENT * k / BLOCKSIZE ==> dir'.blocks[q] == dir.blocks[q]
    ensures IsDir(dir') <==> StaysDir(Count(dir), k)
  {
    hide DirBlocks, Overhangs;
    var n := Count(dir);
    DirSize(dir);
    SizeStep(n);
    DirBlocksAt(n);
    FirstBlocks(n, k);
    assert dir'.blocks == dir.blocks;
    if Overhangs(n, k) {
      GrownIsDir(dir, dir', n);
      assert k == n - 1 by { OverhangsLast(n, k); }
    }
  }

  lemma OverhangsLast(n: nat, k: nat)
    requires Overhangs(n, k)
    ensures k + 1 == n
  {
  }

  /** A directory of `n` entries that has grown by one entry without a block. */
  lemma GrownIsDir(dir: Inode, dir': Inode, n: nat)
    requires IsDir(dir) && n > 0 && dir.size == DIRENT * n && dir' == dir.(size := dir'.size) && dir'.size == DIRENT * (n + 1)
    ensures IsDir(dir') <==> DIRENT * (n + 1) <= MAXBYTES && DIRENT * n / BLOCKSIZE == DIRENT * (n - 1) / BLOCKSIZE
  {
    hide DirBlocks;
    SizeStep(n);
    DirBlocksAt(n);
    DirBlocksAt(n + 1);
    FirstBlocks(n + 1, n - 1);
    FirstBlocks(n + 1, n);
    if DIRENT * (n + 1) <= MAXBYTES && DIRENT * n / BLOCKSIZE != DIRENT * (n - 1) / BLOCKSIZE {
      assert dir'.blocks[DIRENT * n / BLOCKSIZE] == 0;
    }
  }

  /** The blocks of a directory with `n` entries. */
  lemma DirBlocksAt(n: nat)
    ensures DirBlocks(DIRENT * n) == if n == 0 then 0 else DIRENT * (n - 1) / BLOCKSIZE + 1
    ensures DIRENT * n / BLOCKSIZE <= DirBlocks(DIRENT * n) <= DIRENT * n / BLOCKSIZE + 1
  {
  }

  lemma FirstBlocks(n: nat, k: nat)
    requires k < n
    ensures DIRENT * k / BLOCKSIZE <= DIRENT * (n - 1) / BLOCKSIZE
    ensures DIRENT * (k + 1) <= MAXBYTES ==> DIRENT * k / BLOCKSIZE < NDIRECT
  {
  }

  /** The result of `dir_add`. */
  function DirAddResult(dir: Inode, es: seq<Entry>, nfree: nat, name: seq<byte>): FsResult<()>
    requires IsDir(dir) && |es| == Count(dir)
  {
    var k := FreeEntry(es);
    if Lookup(es, name).Some? then Err(EntryExists)
    else if DIRENT * (k + 1) > MAXBYTES then Err(WriteTooLarge)
    else if dir.blocks[DIRENT * k / BLOCKSIZE] == 0 && nfree == 0 then Err(ExhaustedBlocks)
    else Ok(())
  }

  /** What a successful `dir_add` of `e` leaves behind. */
  ghost predicate EntryPut(dir: Inode, es: seq<Entry>, nfree: nat, e: Entry, dir': Inode, img': Image, nfree': nat)
    requires IsDir(dir) && |es| == Count(dir)
  {
    var n, k := |es|, FreeEntry(es);
    && DIRENT * Max(n, k + 1) <= MAXBYTES
    && dir' == dir.(size := dir'.size, blocks := dir'.blocks)
    && dir'.size == dir.size + (if k == n || Overhangs(n, k) then DIRENT else 0)
    && (IsDir(dir') <==> StaysDir(n, k))
    && nfree' == nfree - (if dir.blocks[DIRENT * k / BLOCKSIZE] == 0 then 1 else 0)
    && Entries(img', Max(n, k + 1)) == PutEntry(es, k, Entry(e.inum, Stored(k, e.name)))
  }

  /** The write of entry `k` as `dir_add` makes it. */
  lemma PutDone(dir: Inode, img: Image, nfree: nat, k: nat, e: Entry, dir': Inode, img': Image, nfree': nat)
    requires IsDir(dir) && k == FreeEntry(Entries(img, Count(dir))) && DIRENT * (k + 1) <= MAXBYTES && |e.name| <= DIRNAME_SIZE
    requires dir.blocks[DIRENT * k / BLOCKSIZE] == 0 ==> nfree > 0
    requires Extends(dir, dir'.(size := dir.size)) && dir'.size == WriteSize(dir.size, DIRENT, DIRENT * k)
    requires Carried(dir, img, EncodeEntry(e.inum, e.name), nfree, DIRENT * k, dir'.blocks, img', nfree')
    ensures EntryPut(dir, Entries(img, Count(dir)), nfree, e, dir', img', nfree')
  {
    hide EntryBytes, EncodeEntry, WriteFirst, WriteImage, Stored, Touched, WriteNeeds, WriteStop, IsDir, Entries, FreeEntry,
      WriteSize, StaysDir, Overhangs;
    DirSize(dir);
    PutResult(dir, k, nfree);
    OneBlockWrite(dir.blocks, k);
    PutIsDir(dir, dir', k);
    PutIsWriteFirst(img, EncodeEntry(e.inum, e.name), k);
    PutEntries(img, Count(dir), k, e.inum, e.name);
  }

  /** With every entry in use, a new one goes to the end. */
  lemma LiveAppend(es: seq<Entry>, e: Entry)
    requires Live(es)
    ensures FreeEntry(es) == |es| && PutEntry(es, |es|, e) == es + [e]
    ensures !Overhangs(|es|, |es|) && StaysDir(|es|, |es|)
  {
    FreeEntryIs(es, |es|);
  }

  lemma NoAdds(es: seq<Entry>, adds: seq<Entry>)
    ensures AfterAdds(es, adds[..0]) == es && NewNames(es, adds[..0])
  {
  }

  lemma AddsLive(es: seq<Entry>, adds: seq<Entry>, i: nat)
    requires Live(es) && i <= |adds| && forall j :: 0 <= j < |adds| ==> adds[j].inum != UNUSED_INUM
    ensures Live(AfterAdds(es, adds[..i]))
  {
    hide Stored;
    var r := AfterAdds(es, adds[..i]);
    forall k | 0 <= k < |r| ensures r[k].inum != UNUSED_INUM {
      if k >= |es| { assert r[|es| + (k - |es|)].inum == adds[k - |es|].inum; }
    }
  }

  /** An addition that meets its own name shows that the names are not all new. */
  lemma AddStuck(es: seq<Entry>, adds: seq<Entry>, i: nat)
    requires i < |adds|
    ensures Lookup(AfterAdds(es, adds[..i]), adds[i].name).Some? ==> !NewNames(es, adds)
  {
  }

  /** The blocks that entries `n` to `m` of a directory need. */
  lemma AddNeeds(dir: Inode, n: nat, m: nat)
    requires IsDir(dir) && dir.size == DIRENT * n && n < m
    ensures var grow := if DIRENT * n < MAXBYTES && dir.blocks[DIRENT * n / BLOCKSIZE] == 0 then 1 else 0;
            && DIRENT * n < MAXBYTES
            && DirBlocks(DIRENT * (n + 1)) == DirBlocks(DIRENT * n) + grow
            && DirBlocks(DIRENT * (n + 1)) <= DirBlocks(DIRENT * m)
  {
    DirBlocksAt(n);
    DirBlocksAt(n + 1);
    DirBlocksAt(m);
  }

  /** What `dir_add` of entry `e` does to a directory with the entries `es`, all of them in use. */
  ghost predicate Appended(dir: Inode, es: seq<Entry>, nfree: nat, e: Entry, r: FsResult<()>, dir': Inode, img': Image, nfree': nat) {
    && dir.size == DIRENT * |es|
    && r == (if Lookup(es, e.name).Some? then Err(EntryExists)
             else if dir.size + DIRENT > MAXBYTES then Err(WriteTooLarge)
             else if nfree < DirBlocks(dir.size + DIRENT) - DirBlocks(dir.size) then Err(ExhaustedBlocks)
             else Ok(()))
    && IsDir(dir') && dir' == dir.(size := dir'.size, blocks := dir'.blocks)
    && dir'.size == dir.size + (if r.Ok? then DIRENT else 0)
    && Count(dir') == |es| + (if r.Ok? then 1 else 0) && DIRENT * Count(dir') <= MAXBYTES
    && Entries(img', Count(dir')) == es + (if r.Ok? then [Entry(e.inum, Stored(|es|, e.name))] else [])
    && nfree' == nfree - (DirBlocks(dir'.size) - DirBlocks(dir.size))
  }

  /** The directory after the first `i` additions of a run that began at `dir` with the entries `es`. */
  ghost predicate AddsDone(dir: Inode, es: seq<Entry>, nfree: nat, adds: seq<Entry>, i: nat, dir': Inode, img': Image, nfree': nat)
    requires i <= |adds|
  {
    && IsDir(dir') && dir'.size == dir.size + DIRENT * i
    && Count(dir') == |es| + i && dir'.size == DIRENT * (|es| + i) <= MAXBYTES
    && NewNames(es, adds[..i]) && Entries(img', |es| + i) == AfterAdds(es, adds[..i])
    && nfree' == nfree - (DirBlocks(dir'.size) - DirBlocks(dir.size))
  }

  /** When all additions of a run succeed. */
  ghost predicate AllAddable(dir: Inode, es: seq<Entry>, nfree: nat, adds: seq<Entry>) {
    && NewNames(es, adds) && dir.size + DIRENT * |adds| <= MAXBYTES
    && DirBlocks(dir.size + DIRENT * |adds|) - DirBlocks(dir.size) <= nfree
  }

  lemma AddsNone(dir: Inode, es: seq<Entry>, nfree: nat, adds: seq<Entry>, img: Image)
    requires IsDir(dir) && Count(dir) == |es| && es == Entries(img, Count(dir))
    ensures AddsDone(dir, es, nfree, adds, 0, dir, img, nfree)
  {
    hide Lookup, DirBlocks, IsDir, Entries;
    DirSize(dir);
    NoAdds(es, adds);
  }

  lemma SoFar(dir: Inode, es: seq<Entry>, nfree: nat, adds: seq<Entry>, i: nat, dir': Inode, img': Image, nfree': nat)
    requires i <= |adds| && AddsDone(dir, es, nfree, adds, i, dir', img', nfree')
    ensures IsDir(dir') && DIRENT * Count(dir') <= MAXBYTES && Entries(img', Count(dir')) == AfterAdds(es, adds[..i])
    ensures NewNames(es, adds[..i])
  {
  }

  lemma AddsNext(dir: Inode, es: seq<Entry>, nfree: nat, adds: seq<Entry>, i: nat, dir1: Inode, img1: Image, nfree1: nat,
                 r: FsResult<()>, dir2: Inode, img2: Image, nfree2: nat)
    requires i < |adds| && adds[i].inum != UNUSED_INUM && AddsDone(dir, es, nfree, adds, i, dir1, img1, nfree1)
    requires Appended(dir1, AfterAdds(es, adds[..i]), nfree1, adds[i], r, dir2, img2, nfree2)
    ensures r.Ok? ==> AddsDone(dir, es, nfree, adds, i + 1, dir2, img2, nfree2)
    ensures r.Err? ==> AddsDone(dir, es, nfree, adds, i, dir2, img2, nfree2) && !AllAddable(dir, es, nfree, adds)
  {
    hide Lookup, DirBlocks, IsDir, Entries, NewNames, AfterAdds, Count, Stored;
    AddsStep(es, adds, i);
    AddStuck(es, adds, i);
    AddNeeds(dir1, |es| + i, |es| + |adds|);
    if r.Ok? { NamesStep(es, adds, i); }
  }

  lemma AddsAll(dir: Inode, es: seq<Entry>, nfree: nat, adds: seq<Entry>, dir': Inode, img': Image, nfree': nat)
    requires AddsDone(dir, es, nfree, adds, |adds|, dir', img', nfree')
    ensures AllAddable(dir, es, nfree, adds)
  {
    hide DirBlocks, IsDir, Entries, NewNames, AfterAdds, Count;
    assert adds[..|adds|] == adds;
  }

  /** Rewriting an entry leaves the length of the directory alone unless it is the last one of
      several: the second of two, for instance. */
  lemma ReuseGrows(dir: Inode, k: nat)
    requires IsDir(dir) && k < Count(dir)
    ensures WriteSize(dir.size, DIRENT, DIRENT * k) == dir.size <==> k + 1 < Count(dir) || k == 0
  {
    PutResult(dir, k, 0);
    if k > 0 { StartsInside(k); }
  }

  lemma StartsInside(k: nat)
    requires 0 < k && DIRENT * k < MAXBYTES
    ensures DIRENT * k % BLOCKSIZE != 0
  {
  }
}
