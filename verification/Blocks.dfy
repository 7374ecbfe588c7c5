/** Taking blocks off the on-disk free list and putting them back. */
module Blocks {
  import opened Wrappers
  import opened Bytes
  import opened Layout
  import opened Volume
  import FreeList

  // ----- scanning a list node -----

  /** Searches the slots of a node from the last one down; word 0 is the link. */
  method LastUsedSlot(w: WordBlock) returns (r: Option<nat>)
    ensures r.Some? ==> r.value + 1 < BLOCKWORDS && w[r.value + 1] != 0
                        && forall j :: r.value + 1 < j < BLOCKWORDS ==> w[j] == 0
    ensures r.None? ==> forall j :: 1 <= j < BLOCKWORDS ==> w[j] == 0
  {
    var i := BLOCKWORDS;
    while i > 1
      invariant 1 <= i <= BLOCKWORDS
      invariant forall j :: i <= j < BLOCKWORDS ==> w[j] == 0
    {
      i := i - 1;
      if w[i] != UNUSED_BLOCKADDR {
        return Some(i - 1);
      }
    }
    r := None;
  }

  /** Searches the slots of a node from the first one up. */
  method FirstUnusedSlot(w: WordBlock) returns (r: Option<nat>)
    ensures r.Some? ==> r.value + 1 < BLOCKWORDS && w[r.value + 1] == 0
                        && forall j :: 1 <= j <= r.value ==> w[j] != 0
    ensures r.None? ==> forall j :: 1 <= j < BLOCKWORDS ==> w[j] != 0
  {
    var i := 1;
    while i < BLOCKWORDS
      invariant 1 <= i <= BLOCKWORDS
      invariant forall j :: 1 <= j < i ==> w[j] != 0
    {
      if w[i] == UNUSED_BLOCKADDR {
        return Some(i - 1);
      }
      i := i + 1;
    }
    r := None;
  }

  // ----- one list operation on the disk -----

  /** Besides the superblock, only blocks of the list are written. */
  ghost predicate OnlyListTouched(d: seq<Block>, free: seq<u32>, d': seq<Block>) {
    |d'| == |d| && forall b :: 0 < b < |d| && b !in free ==> d'[b] == d[b]
  }

  /** The disk after `alloc_block` empties slot `index` of the head. */
  ghost function TakeSlot(d: seq<Block>, head: u32, index: nat): seq<Block>
    requires head < |d| && index + 1 < BLOCKWORDS && ToWords(d[head])[index + 1] < |d|
  {
    var words := ToWords(d[head]);
    d[head := ToBytes(words[index + 1 := 0])][words[index + 1] := Zeros(BLOCKSIZE)]
  }

  lemma TakeSlotPops(d: seq<Block>, free: seq<u32>, head: u32, index: nat)
    requires |d| == FS_SIZE && FreeOnDisk(d, free) && |free| > 0 && head == SbOf(d[0]).freelist_start
    requires head < |d| && index + 1 < BLOCKWORDS && ToWords(d[head])[index + 1] != 0
    requires forall j :: index + 1 < j < BLOCKWORDS ==> ToWords(d[head])[j] == 0
    ensures ToWords(d[head])[index + 1] == free[|free| - 1] < |d|
    ensures var d' := TakeSlot(d, head, index);
            FreeOnDisk(d', free[..|free| - 1]) && OnlyListTouched(d, free, d') && d'[0] == d[0]
            && d'[free[|free| - 1]] == ZERO_BLOCK
  {
    hide ToWords, ToBytes, FreeList.NodesHold, FreeList.Distinct, FreeList.HeadOf, FreeList.Fill, FreeList.NodeCount;
    var w, f := WordsOf(d), FreeList.Fill(|free|);
    FreeList.HeadSlots(w, head, free, index + 1);
    if index + 1 < f { FreeList.HeadSlots(w, head, free, f); }
    FreeList.PopFromHead(w, head, free, ZeroWords(BLOCKWORDS));
    var words: WordBlock := ToWords(d[head])[index + 1 := 0];
    CastRoundTrip(words);
    WordsOfZeros();
    var d' := TakeSlot(d, head, index);
    var z: WordBlock := ZeroWords(BLOCKWORDS);
    var w1: seq<WordBlock> := w[head := words];
    assert WordsOf(d') == w1[free[|free| - 1] := z];
  }

  /** The disk after the superblock has been given a new list head. */
  ghost function SetHead(d: seq<Block>, head: u32): (d': seq<Block>)
    requires |d| > 0
  {
    d[0 := PutSb(d[0], SbOf(d[0]).(freelist_start := head))]
  }

  lemma SetHeadWords(d: seq<Block>, head: u32)
    requires |d| > 0
    ensures SbOf(SetHead(d, head)[0]) == SbOf(d[0]).(freelist_start := head)
  {
    SbRoundTrip(d[0], SbOf(d[0]).(freelist_start := head));
  }

  lemma TakeHeadPops(d: seq<Block>, free: seq<u32>, head: u32)
    requires |d| == FS_SIZE && FreeOnDisk(d, free) && |free| > 0 && head == SbOf(d[0]).freelist_start
    requires head < |d| && forall j :: 1 <= j < BLOCKWORDS ==> ToWords(d[head])[j] == 0
    ensures head == free[|free| - 1]
    ensures var d' := SetHead(d[head := Zeros(BLOCKSIZE)], ToWords(d[head])[0]);
            FreeOnDisk(d', free[..|free| - 1]) && OnlyListTouched(d, free, d')
            && d'[head] == ZERO_BLOCK && SbKept(d, d')
  {
    var w, f := WordsOf(d), FreeList.Fill(|free|);
    if f > 0 { FreeList.HeadSlots(w, head, free, f); }
    FreeList.PopHead(w, head, free, ZeroWords(BLOCKWORDS));
    WordsOfZeros();
    SetHeadWords(d[head := Zeros(BLOCKSIZE)], ToWords(d[head])[0]);
    var d' := SetHead(d[head := Zeros(BLOCKSIZE)], ToWords(d[head])[0]);
    FreeList.RepFrame(w[head := ZeroWords(BLOCKWORDS)], WordsOf(d'), ToWords(d[head])[0], free[..|free| - 1]);
  }

  lemma PutSlotPushes(d: seq<Block>, free: seq<u32>, head: u32, pos: nat, b: u32)
    requires |d| == FS_SIZE && FreeOnDisk(d, free) && |free| > 0 && head == SbOf(d[0]).freelist_start
    requires head < |d| && pos + 1 < BLOCKWORDS && ToWords(d[head])[pos + 1] == 0
    requires forall j :: 1 <= j <= pos ==> ToWords(d[head])[j] != 0
    requires 0 < b < |d| && b !in free
    ensures var d' := d[head := ToBytes(ToWords(d[head])[pos + 1 := b])];
            FreeOnDisk(d', free + [b]) && OnlyListTouched(d, free, d') && d'[0] == d[0]
  {
    hide ToWords, ToBytes, FreeList.NodesHold, FreeList.Distinct, FreeList.HeadOf, FreeList.Fill, FreeList.NodeCount;
    var w := WordsOf(d);
    FreeList.HeadSlots(w, head, free, pos + 1);
    if pos > 0 { FreeList.HeadSlots(w, head, free, pos); }
    FreeList.PushIntoHead(w, head, free, b);
    var words: WordBlock := ToWords(d[head])[pos + 1 := b];
    CastRoundTrip(words);
    assert WordsOf(d[head := ToBytes(words)]) == w[head := words];
  }

  lemma PutHeadPushes(d: seq<Block>, free: seq<u32>, head: u32, b: u32)
    requires |d| == FS_SIZE && FreeOnDisk(d, free) && head == SbOf(d[0]).freelist_start
    requires |free| > 0 ==> head < |d| && forall j :: 1 <= j < BLOCKWORDS ==> ToWords(d[head])[j] != 0
    requires 0 < b < |d| && b !in free
    ensures var d' := SetHead(d, b)[b := ToBytes([head] + ZeroWords(BLOCKWORDS - 1))];
            FreeOnDisk(d', free + [b]) && OnlyListTouched(d, free + [b], d')
            && SbKept(d, d')
  {
    hide ToWords, ToBytes, FreeList.NodesHold, FreeList.Distinct, FreeList.HeadOf, FreeList.Fill, FreeList.NodeCount;
    var w := WordsOf(d);
    if |free| > 0 { FreeList.HeadSlots(w, head, free, BLOCKWORDS - 1); }
    FreeList.PushNewHead(w, head, free, b);
    var words: WordBlock := [head] + ZeroWords(BLOCKWORDS - 1);
    CastRoundTrip(words);
    SetHeadWords(d, b);
    var d' := SetHead(d, b)[b := ToBytes(words)];
    FreeList.RepFrame(w[b := words], WordsOf(d'), b, free + [b]);
  }

  // ----- freeing a free block -----

  lemma PutSlotTwice(d: seq<Block>, free: seq<u32>, head: u32, pos: nat, b: u32, free': seq<u32>)
    requires |d| == FS_SIZE && FreeOnDisk(d, free) && |free| > 0 && head == SbOf(d[0]).freelist_start
    requires head < |d| && pos + 1 < BLOCKWORDS && ToWords(d[head])[pos + 1] == 0
    requires forall j :: 1 <= j <= pos ==> ToWords(d[head])[j] != 0
    requires b in free
    ensures var d' := d[head := ToBytes(ToWords(d[head])[pos + 1 := b])];
            !FreeOnDisk(d', free') && d'[0] == d[0]
  {
    hide ToWords, ToBytes, FreeList.Rep, FreeList.Fill;
    var w := WordsOf(d);
    FreeList.HeadSlots(w, head, free, pos + 1);
    if pos > 0 { FreeList.HeadSlots(w, head, free, pos); }
    FreeList.PushTwice(w, head, free, b, free');
    var words: WordBlock := ToWords(d[head])[pos + 1 := b];
    CastRoundTrip(words);
    var d' := d[head := ToBytes(words)];
    assert WordsOf(d') == w[head := words];
    assert d'[0] == d[0];
  }

  lemma PutHeadTwice(d: seq<Block>, free: seq<u32>, head: u32, b: u32, free': seq<u32>)
    requires |d| == FS_SIZE && FreeOnDisk(d, free) && head == SbOf(d[0]).freelist_start && b in free && 0 < b < |d|
    ensures var d' := SetHead(d, b)[b := ToBytes([head] + ZeroWords(BLOCKWORDS - 1))];
            !FreeOnDisk(d', free') && SbKept(d, d')
  {
    hide ToWords, ToBytes, FreeList.Rep;
    var words: WordBlock := [head] + ZeroWords(BLOCKWORDS - 1);
    CastRoundTrip(words);
    SetHeadWords(d, b);
    var d' := SetHead(d, b)[b := ToBytes(words)];
    FreeList.PushHeadTwice(WordsOf(d), head, free, b, WordsOf(d'), free');
  }

  /** Freeing any block through a slot of the head. */
  lemma SlotFreed(d: seq<Block>, free: seq<u32>, head: u32, pos: nat, b: u32)
    requires |d| == FS_SIZE && FreeOnDisk(d, free) && |free| > 0 && head == SbOf(d[0]).freelist_start
    requires head < |d| && pos + 1 < BLOCKWORDS && ToWords(d[head])[pos + 1] == 0
    requires forall j :: 1 <= j <= pos ==> ToWords(d[head])[j] != 0
    requires 0 < b < |d|
    ensures var d' := d[head := ToBytes(ToWords(d[head])[pos + 1 := b])];
            Freed(d, free, b, d')
  {
    hide ToWords, ToBytes, FreeOnDisk, OnlyListTouched, SbOf;
    var d' := d[head := ToBytes(ToWords(d[head])[pos + 1 := b])];
    if b in free {
      forall st ensures !FreeOnDisk(d', st) {
        PutSlotTwice(d, free, head, pos, b, st);
      }
      assert d'[0] == d[0] by { PutSlotTwice(d, free, head, pos, b, free); }
    } else {
      PutSlotPushes(d, free, head, pos, b);
      MoreTouched(d, free, b, d');
    }
  }

  /** Freeing any block by making it the new head. */
  lemma HeadFreed(d: seq<Block>, free: seq<u32>, head: u32, b: u32)
    requires |d| == FS_SIZE && FreeOnDisk(d, free) && head == SbOf(d[0]).freelist_start
    requires |free| > 0 ==> head < |d| && forall j :: 1 <= j < BLOCKWORDS ==> ToWords(d[head])[j] != 0
    requires 0 < b < |d|
    ensures var d' := SetHead(d, b)[b := ToBytes([head] + ZeroWords(BLOCKWORDS - 1))];
            Freed(d, free, b, d')
  {
    hide ToWords, ToBytes, FreeOnDisk, OnlyListTouched, SbOf;
    var d' := SetHead(d, b)[b := ToBytes([head] + ZeroWords(BLOCKWORDS - 1))];
    if b in free {
      forall st ensures !FreeOnDisk(d', st) {
        PutHeadTwice(d, free, head, b, st);
      }
      assert SbKept(d, d') by { PutHeadTwice(d, free, head, b, free); }
    } else {
      PutHeadPushes(d, free, head, b);
    }
  }

  /** What freeing block `b` does to the list: it is pushed, or the list is lost if it was free. */
  ghost predicate Freed(d: seq<Block>, free: seq<u32>, b: u32, d': seq<Block>)
    requires |d| == |d'| == FS_SIZE
  {
    && SbKept(d, d')
    && if b in free then forall st :: !FreeOnDisk(d', st)
       else FreeOnDisk(d', free + [b]) && OnlyListTouched(d, free + [b], d')
  }

  lemma MoreTouched(d: seq<Block>, free: seq<u32>, b: u32, d': seq<Block>)
    requires OnlyListTouched(d, free, d')
    ensures OnlyListTouched(d, free + [b], d')
  {
  }

  // ----- what allocation and release do to the state -----

  /** The top of the free stack passes to the caller. */
  ghost function Lend(v: View): View
    requires |v.free| > 0
  {
    var m := |v.free| - 1;
    v.(free := v.free[..m], own := v.own[v.free[m] := Caller])
  }

  /** The caller gives block `b` back. */
  ghost function Release(v: View, b: u32): View {
    v.(free := v.free + [b], own := v.own - {b})
  }

  /** Freeing a block and allocating again gives the same block and the same state: the free
      list is last in, first out. */
  lemma LendAfterRelease(v: View, b: u32)
    requires b in v.own && v.own[b] == Caller
    ensures Lend(Release(v, b)) == v && Release(v, b).free[|v.free|] == b
  {
    assert (v.free + [b])[..|v.free|] == v.free;
    assert (v.own - {b})[b := Caller] == v.own;
  }

  /** Everything in use survives: owned blocks and the inode table. */
  ghost predicate UsedKept(d: seq<Block>, v: View, d': seq<Block>) {
    && |d'| == |d|
    && (forall b :: b in v.own && b < |d| ==> d'[b] == d[b])
    && (forall b :: 1 <= b < DATA_START && b < |d| ==> d'[b] == d[b])
  }

  lemma LendKeeps(v: View)
    requires Partition(v) && Slots(v) && FreeList.Distinct(v.free) && |v.free| > 0
    ensures Partition(Lend(v)) && Slots(Lend(v))
  {
    var v', b := Lend(v), v.free[|v.free| - 1];
    assert v.free == v'.free + [b];
  }

  lemma ReleaseKeeps(v: View, b: u32)
    requires Partition(v) && Slots(v) && b in v.own && v.own[b] == Caller
    ensures Partition(Release(v, b)) && Slots(Release(v, b)) && b !in v.free
  {
  }

  /** What the allocator reads first. */
  lemma ListHead(d: seq<Block>, v: View)
    requires Inv(d, v)
    ensures |d| == FS_SIZE && FreeOnDisk(d, v.free)
    ensures forall b :: b in v.free ==> 0 < b < |d|
    ensures FreeList.Distinct(v.free) && SbOf(d[0]).freelist_start < |d|
    ensures SbOf(d[0]).freelist_start == 0 <==> v.free == []
  {
    hide SbOf, ToWords, FreeList.NodesHold;
  }

  lemma OwnedIsNotFree(d: seq<Block>, v: View, b: u32)
    requires Inv(d, v) && b in v.own
    ensures 0 < b < |d| && b !in v.free
  {
    hide SbOf, ToWords, FreeList.Rep;
  }

  /** Popping the list re-establishes the invariant with the block lent out. */
  lemma AllocKeeps(d: seq<Block>, v: View, d': seq<Block>)
    requires Inv(d, v) && |v.free| > 0
    requires OnlyListTouched(d, v.free, d') && FreeOnDisk(d', v.free[..|v.free| - 1])
    requires SbKept(d, d')
    ensures Inv(d', Lend(v)) && UsedKept(d, v, d')
  {
    hide SbOf, ToWords, FreeOnDisk, OnlyListTouched, Partition, Slots;
    ListHead(d, v);
    LendKeeps(v);
    ListIsData(d, v, d');
  }

  lemma FreeKeeps(d: seq<Block>, v: View, d': seq<Block>, b: u32)
    requires Inv(d, v) && b in v.own && v.own[b] == Caller
    requires OnlyListTouched(d, v.free + [b], d') && FreeOnDisk(d', v.free + [b])
    requires SbKept(d, d')
    ensures Inv(d', Release(v, b)) && UsedKept(d, Release(v, b), d')
  {
    hide SbOf, ToWords, FreeOnDisk, OnlyListTouched, Partition, Slots;
    ReleaseKeeps(v, b);
    ListIsData(d, Release(v, b), d');
  }

  lemma ListIsData(d: seq<Block>, v: View, d': seq<Block>)
    requires Partition(v) && OnlyListTouched(d, v.free, d')
    ensures UsedKept(d, v, d')
  {
  }

  // ----- mapping a fresh block into an inode -----

  /** Slot `q` of inode `inum` takes the top of the free stack. */
  ghost function Attach(v: View, inum: nat, q: nat): View
    requires |v.free| > 0 && inum < NUM_INODES && q < NDIRECT
  {
    var m := |v.free| - 1;
    var ino := v.table[inum];
    Touch(v, inum, ino.(blocks := ino.blocks[q := v.free[m]])).(free := v.free[..m], own := v.own[v.free[m] := Slot(inum, q)])
  }

  lemma AttachOwns(v: View, inum: nat, q: nat)
    requires Partition(v) && Slots(v) && FreeList.Distinct(v.free) && |v.free| > 0
    requires inum < NUM_INODES && q < NDIRECT && v.table[inum].blocks[q] == 0 && v.table[inum].type_ != UNUSED
    ensures Partition(Attach(v, inum, q)) && Slots(Attach(v, inum, q))
  {
    var v', b := Attach(v, inum, q), v.free[|v.free| - 1];
    assert v.free == v'.free + [b];
    assert DataBlock(b);
    assert b !in v.own;
  }

  /** A freshly mapped block reads as the zeros it stood for: no image changes. */
  lemma AttachKeeps(d: seq<Block>, v: View, d': seq<Block>, inum: nat, q: nat)
    requires Inv(d, v) && |v.free| > 0 && inum < NUM_INODES && q < NDIRECT
    requires v.table[inum].blocks[q] == 0 && v.table[inum].type_ != UNUSED
    requires Inv(d', Lend(v)) && UsedKept(d, v, d') && d'[v.free[|v.free| - 1]] == ZERO_BLOCK
    ensures var v' := Attach(v, inum, q);
            && Inv(d', v') && OthersKept(d, v, d', v', inum)
            && Img(d', v'.table[inum]) == Img(d, v.table[inum])
  {
    hide SbOf, ToWords, FreeOnDisk;
    var v' := Attach(v, inum, q);
    ListHead(d, v);
    AttachOwns(v, inum, q);
    OthersKeptFromBlocks(d, v, d', v', inum);
  }
}
