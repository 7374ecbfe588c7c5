/** The unrolled free list that lives inside the free blocks, seen as a stack.

    Read from the bottom, every 128th block of the stack is a list node: word 0 of
    a node links to the node below it and words 1..127 hold the next 127 blocks
    of the stack.  Only the head node may be partly filled, and its filled slots
    come first. */
module FreeList {
  import opened Bytes

  const NODE: nat := BLOCKWORDS

  /** The word that slot `j` of node `k` must hold. */
  ghost function SlotWord(st: seq<u32>, k: nat, j: nat): u32
    requires NODE * k < |st| && j < NODE
  {
    if j == 0 then (if k == 0 then 0 else st[NODE * (k - 1)])
    else if NODE * k + j < |st| then st[NODE * k + j]
    else 0
  }

  /** How many nodes store a stack of `n` blocks. */
  function NodeCount(n: nat): nat {
    (n + NODE - 1) / NODE
  }

  ghost function HeadOf(st: seq<u32>): u32 {
    if |st| == 0 then 0 else st[NODE * (NodeCount(|st|) - 1)]
  }

  ghost predicate Distinct(st: seq<u32>) {
    forall i, j :: 0 <= i < j < |st| ==> st[i] != st[j]
  }

  ghost predicate NodesHold(w: seq<WordBlock>, st: seq<u32>)
    requires forall i :: 0 <= i < |st| ==> 0 < st[i] < |w|
  {
    forall k: nat, j: nat :: NODE * k < |st| && j < NODE ==> w[st[NODE * k]][j] == SlotWord(st, k, j)
  }

  /** `w`, read from list head `head`, stores exactly the stack `st`. */
  ghost predicate Rep(w: seq<WordBlock>, head: u32, st: seq<u32>) {
    && (forall i :: 0 <= i < |st| ==> 0 < st[i] < |w|)
    && Distinct(st)
    && head == HeadOf(st)
    && NodesHold(w, st)
  }

  /** How many slots of the head are filled. */
  function Fill(n: nat): (f: nat)
    requires n > 0
    ensures f < NODE && n == NODE * (NodeCount(n) - 1) + f + 1
  {
    (n - 1) % NODE
  }

  /** The head's non-zero slots are its first `Fill(|st|)`, and they are the top of the stack. */
  lemma HeadSlots(w: seq<WordBlock>, head: u32, st: seq<u32>, j: nat)
    requires Rep(w, head, st) && |st| > 0
    requires 1 <= j < NODE
    ensures 0 < head < |w| && head in st
    ensures w[head][j] != 0 <==> j <= Fill(|st|)
    ensures j <= Fill(|st|) ==> w[head][j] == st[|st| - 1 - Fill(|st|) + j]
  {
    assert w[head][j] == SlotWord(st, NodeCount(|st|) - 1, j);
  }

  lemma HeadLink(w: seq<WordBlock>, head: u32, st: seq<u32>)
    requires Rep(w, head, st) && |st| > 0
    ensures 0 < head < |w|
    ensures w[head][0] == HeadOf(st[..|st| - 1 - Fill(|st|)])
  {
    var k := NodeCount(|st|) - 1;
    assert w[head][0] == SlotWord(st, k, 0);
    assert NodeCount(NODE * k) == k;
  }

  // ----- push -----

  /** A head with room takes the block in its first empty slot. */
  lemma PushIntoHead(w: seq<WordBlock>, head: u32, st: seq<u32>, b: u32)
    requires Rep(w, head, st) && |st| > 0 && Fill(|st|) + 1 < NODE
    requires 0 < b < |w| && b !in st
    ensures Rep(w[head := w[head][Fill(|st|) + 1 := b]], head, st + [b])
  {
    var w', st' := w[head := w[head][Fill(|st|) + 1 := b]], st + [b];
    forall k: nat, j: nat | NODE * k < |st'| && j < NODE
      ensures w'[st'[NODE * k]][j] == SlotWord(st', k, j)
    {
      assert w[st[NODE * k]][j] == SlotWord(st, k, j);
    }
  }

  /** With no head, or a full one, the block itself becomes the head. */
  lemma PushNewHead(w: seq<WordBlock>, head: u32, st: seq<u32>, b: u32)
    requires Rep(w, head, st) && (|st| > 0 ==> Fill(|st|) + 1 == NODE)
    requires 0 < b < |w| && b !in st
    ensures Rep(w[b := [head] + ZeroWords(NODE - 1)], b, st + [b])
  {
    var w', st' := w[b := [head] + ZeroWords(NODE - 1)], st + [b];
    forall k: nat, j: nat | NODE * k < |st'| && j < NODE
      ensures w'[st'[NODE * k]][j] == SlotWord(st', k, j)
    {
      if NODE * k < |st| {
        assert w[st[NODE * k]][j] == SlotWord(st, k, j);
      }
    }
  }

  // ----- pop -----

  /** Taking the last filled slot of the head pops the stack; the popped block is free to change. */
  lemma PopFromHead(w: seq<WordBlock>, head: u32, st: seq<u32>, z: WordBlock)
    requires Rep(w, head, st) && |st| > 0 && Fill(|st|) > 0
    ensures 0 < head < |w| && st[|st| - 1] < |w| && head != st[|st| - 1]
    ensures Rep(w[head := w[head][Fill(|st|) := 0]][st[|st| - 1] := z], head, st[..|st| - 1])
  {
    var w', st' := w[head := w[head][Fill(|st|) := 0]][st[|st| - 1] := z], st[..|st| - 1];
    forall k: nat, j: nat | NODE * k < |st'| && j < NODE
      ensures w'[st'[NODE * k]][j] == SlotWord(st', k, j)
    {
      assert w[st[NODE * k]][j] == SlotWord(st, k, j);
    }
  }

  /** A head with no filled slot is itself the popped block. */
  lemma PopHead(w: seq<WordBlock>, head: u32, st: seq<u32>, z: WordBlock)
    requires Rep(w, head, st) && |st| > 0 && Fill(|st|) == 0
    ensures 0 < head < |w| && head == st[|st| - 1]
    ensures Rep(w[head := z], w[head][0], st[..|st| - 1])
  {
    HeadLink(w, head, st);
    var w', st' := w[head := z], st[..|st| - 1];
    forall k: nat, j: nat | NODE * k < |st'| && j < NODE
      ensures w'[st'[NODE * k]][j] == SlotWord(st', k, j)
    {
      assert w[st[NODE * k]][j] == SlotWord(st, k, j);
    }
  }

  // ----- what the representation determines -----

  /** Blocks that are not on the list may change freely. */
  lemma RepFrame(w: seq<WordBlock>, w': seq<WordBlock>, head: u32, st: seq<u32>)
    requires Rep(w, head, st) && |w'| == |w|
    requires forall i :: 0 <= i < |st| ==> w'[st[i]] == w[st[i]]
    ensures Rep(w', head, st)
  {
  }

  lemma RepBelowHead(w: seq<WordBlock>, head: u32, st: seq<u32>)
    requires Rep(w, head, st) && |st| > 0
    ensures 0 < head < |w|
    ensures Rep(w, w[head][0], st[..|st| - 1 - Fill(|st|)])
  {
    HeadLink(w, head, st);
    var st' := st[..|st| - 1 - Fill(|st|)];
    forall k: nat, j: nat | NODE * k < |st'| && j < NODE
      ensures w[st'[NODE * k]][j] == SlotWord(st', k, j)
    {
      assert w[st[NODE * k]][j] == SlotWord(st, k, j);
    }
  }

  lemma SameFill(w: seq<WordBlock>, head: u32, s: seq<u32>, t: seq<u32>)
    requires Rep(w, head, s) && Rep(w, head, t) && |s| > 0 && |t| > 0
    ensures Fill(|s|) == Fill(|t|)
  {
    var j := if Fill(|s|) < Fill(|t|) then Fill(|t|) else Fill(|s|);
    if j > 0 {
      HeadSlots(w, head, s, j);
      HeadSlots(w, head, t, j);
    }
  }

  /** Position `i` of the stack, read off the head node. */
  lemma TopOfStack(w: seq<WordBlock>, head: u32, st: seq<u32>, i: nat)
    requires Rep(w, head, st) && 0 < |st| <= i + 1 + Fill(|st|) && i < |st|
    ensures head < |w|
    ensures var j := i + 1 + Fill(|st|) - |st|; st[i] == if j == 0 then head else w[head][j]
  {
    var j := i + 1 + Fill(|st|) - |st|;
    if j > 0 { HeadSlots(w, head, st, j); }
  }

  /** The disk determines the stack: the list is acyclic and has one reading only. */
  lemma {:induction false} RepUnique(w: seq<WordBlock>, head: u32, s: seq<u32>, t: seq<u32>)
    requires Rep(w, head, s) && Rep(w, head, t)
    ensures s == t
    decreases |s|
  {
    hide Rep;
    HeadNotNull(w, head, s);
    HeadNotNull(w, head, t);
    if |s| > 0 {
      SameFill(w, head, s, t);
      var n := |s| - 1 - Fill(|s|);
      assert s[..n] == t[..n] && |s| == |t| by {
        RepBelowHead(w, head, s);
        RepBelowHead(w, head, t);
        RepUnique(w, w[head][0], s[..n], t[..|t| - 1 - Fill(|t|)]);
      }
      forall i | n <= i < |s| ensures s[i] == t[i] {
        TopOfStack(w, head, s, i);
        TopOfStack(w, head, t, i);
      }
      assert s[n..] == t[n..];
      assert s == s[..n] + s[n..];
    }
  }

  // ----- freeing a block twice -----

  /** The blocks below the head do not include it. */
  lemma BelowHead(w: seq<WordBlock>, head: u32, st: seq<u32>)
    requires Rep(w, head, st) && |st| > 0
    ensures 0 < head < |w| && head !in st[..|st| - 1 - Fill(|st|)]
    ensures forall x :: x in st ==> x in st[..|st| - 1 - Fill(|st|)] || x == head || exists j :: 1 <= j <= Fill(|st|) && w[head][j] == x
  {
    hide NodesHold;
    var n := |st| - 1 - Fill(|st|);
    TopOfStack(w, head, st, n);
    forall x | x in st && x !in st[..n] && x != head ensures exists j :: 1 <= j <= Fill(|st|) && w[head][j] == x {
      var i :| 0 <= i < |st| && st[i] == x;
      TopOfStack(w, head, st, i);
      assert w[head][i - n] == x;
    }
  }

  /** Two lists that differ in the head node only, and not in its link, agree below it. */
  lemma SameBelow(w: seq<WordBlock>, w': seq<WordBlock>, head: u32, st: seq<u32>, st': seq<u32>)
    requires Rep(w, head, st) && Rep(w', head, st') && |st| > 0 && |st'| > 0 && |w'| == |w| && head < |w|
    requires w'[head][0] == w[head][0] && forall i :: 0 <= i < |w| && i != head ==> w'[i] == w[i]
    ensures st[..|st| - 1 - Fill(|st|)] == st'[..|st'| - 1 - Fill(|st'|)]
  {
    hide NodesHold, Fill;
    var below := st'[..|st'| - 1 - Fill(|st'|)];
    RepBelowHead(w, head, st);
    RepBelowHead(w', head, st');
    BelowHead(w', head, st');
    RepFrame(w', w, w[head][0], below);
    RepUnique(w, w[head][0], st[..|st| - 1 - Fill(|st|)], below);
  }

  /** Filling a slot of the head with a block that is on the list already leaves no list at all. */
  lemma PushTwice(w: seq<WordBlock>, head: u32, st: seq<u32>, b: u32, st': seq<u32>)
    requires Rep(w, head, st) && |st| > 0 && Fill(|st|) + 1 < NODE && b in st
    ensures !Rep(w[head := w[head][Fill(|st|) + 1 := b]], head, st')
  {
    hide Rep;
    var f := Fill(|st|);
    InRange(w, head, st);
    BelowHead(w, head, st);
    var w' := w[head := w[head][f + 1 := b]];
    if Rep(w', head, st') {
      HeadNotNull(w', head, st');
      SameBelow(w, w', head, st, st');
      HeadSlots(w', head, st', f + 1);
      var n, n' := |st| - 1 - f, |st'| - 1 - Fill(|st'|);
      var i := EarlierIn(w, head, st, b, w', st');
      OnceOnly(w', head, st', i, n' + f + 1);
    }
  }

  lemma InRange(w: seq<WordBlock>, head: u32, st: seq<u32>)
    requires Rep(w, head, st)
    ensures forall x :: x in st ==> 0 < x < |w|
    ensures |st| > 0 ==> 0 < head < |w|
  {
  }

  lemma OnceOnly(w: seq<WordBlock>, head: u32, st: seq<u32>, i: nat, j: nat)
    requires Rep(w, head, st) && i < j < |st|
    ensures st[i] != st[j]
  {
  }

  /** Where `b` stood on the list before it was pushed again. */
  lemma EarlierIn(w: seq<WordBlock>, head: u32, st: seq<u32>, b: u32, w': seq<WordBlock>, st': seq<u32>) returns (i: nat)
    requires Rep(w, head, st) && Rep(w', head, st') && |st| > 0 && |st'| > 0 && b in st && 0 < head < |w| == |w'|
    requires Fill(|st|) < Fill(|st'|) && forall j :: 0 <= j <= Fill(|st|) ==> w'[head][j] == w[head][j]
    requires st[..|st| - 1 - Fill(|st|)] == st'[..|st'| - 1 - Fill(|st'|)]
    ensures i <= |st'| - 1 - Fill(|st'|) + Fill(|st|) && st'[i] == b
  {
    hide Rep;
    var n := |st| - 1 - Fill(|st|);
    BelowHead(w, head, st);
    if b in st[..n] {
      i :| 0 <= i < n && st[..n][i] == b;
      assert st'[..n][i] == b;
    } else if b == head {
      TopOfStack(w', head, st', n);
      i := n;
    } else {
      var j :| 1 <= j <= Fill(|st|) && w[head][j] == b;
      HeadSlots(w', head, st', j);
      i := n + j;
    }
  }

  /** Nor does making such a block the new head. */
  lemma PushHeadTwice(w: seq<WordBlock>, head: u32, st: seq<u32>, b: u32, w': seq<WordBlock>, st': seq<u32>)
    requires Rep(w, head, st) && b in st && |w'| == |w| && b < |w|
    requires w'[b] == [head] + ZeroWords(NODE - 1) && forall i :: 0 < i < |w| && i != b ==> w'[i] == w[i]
    ensures !Rep(w', b, st')
  {
    hide NodesHold, Fill;
    if Rep(w', b, st') {
      HeadNotNull(w', b, st');
      BelowHead(w', b, st');
      RepBelowHead(w', b, st');
      var n' := |st'| - 1 - Fill(|st'|);
      RepFrame(w', w, head, st'[..n']);
      RepUnique(w, head, st, st'[..n']);
      assert false;
    }
  }

  lemma HeadNotNull(w: seq<WordBlock>, head: u32, st: seq<u32>)
    requires Rep(w, head, st)
    ensures head > 0 <==> |st| > 0
  {
  }

  /** The node blocks, from the head down. */
  ghost function Chain(st: seq<u32>): seq<u32> {
    seq(NodeCount(|st|), k requires 0 <= k < NodeCount(|st|) => st[NODE * (NodeCount(|st|) - 1 - k)])
  }

  /** Following the links from the head visits ceil(n / 128) nodes, none twice, and ends at the
      null link; every node below the head is full. */
  lemma ChainShape(w: seq<WordBlock>, head: u32, st: seq<u32>)
    requires Rep(w, head, st)
    ensures var c := Chain(st);
            && |c| == NodeCount(|st|) && Distinct(c) && (|c| > 0 ==> c[0] == head)
            && (forall k :: 0 <= k < |c| ==> w[c[k]][0] == if k + 1 < |c| then c[k + 1] else 0)
            && (forall k, j :: 1 <= k < |c| && 1 <= j < NODE ==> w[c[k]][j] != 0)
  {
    var c := Chain(st);
    forall k | 0 <= k < |c| ensures w[c[k]][0] == if k + 1 < |c| then c[k + 1] else 0 {
      assert w[c[k]][0] == SlotWord(st, |c| - 1 - k, 0);
    }
    forall k, j | 1 <= k < |c| && 1 <= j < NODE ensures w[c[k]][j] != 0 {
      assert w[c[k]][j] == SlotWord(st, |c| - 1 - k, j);
    }
  }
}
