/** Machine integers, 512-byte disk blocks and their little-endian 32-bit word view.

    The file system casts a block between `[u8; 512]` and arrays of 32-bit fields
    (`slice_cast`, `buffer_to_sb`).  `ToWords` and `ToBytes` are those casts on a
    little-endian machine. */
module Bytes {

  type byte = x: int | 0 <= x < 0x100
  type u16 = x: int | 0 <= x < 0x1_0000
  type u32 = x: int | 0 <= x < 0x1_0000_0000

  const BLOCKSIZE: nat := 512
  const BLOCKWORDS: nat := 128

  type Block = b: seq<byte> | |b| == BLOCKSIZE witness Zeros(BLOCKSIZE)
  type WordBlock = w: seq<u32> | |w| == BLOCKWORDS witness ZeroWords(BLOCKWORDS)

  function Zeros(n: nat): (z: seq<byte>)
    ensures |z| == n && forall i :: 0 <= i < n ==> z[i] == 0
  {
    seq(n, _ => 0)
  }

  function ZeroWords(n: nat): (z: seq<u32>)
    ensures |z| == n && forall i :: 0 <= i < n ==> z[i] == 0
  {
    seq(n, _ => 0)
  }

  function Min(a: nat, b: nat): (m: nat)
    ensures m <= a && m <= b && (m == a || m == b)
  {
    if a <= b then a else b
  }

  /** `s` written over `b` from position `at`; everything else is kept. */
  function Overlay(b: seq<byte>, at: nat, s: seq<byte>): (r: seq<byte>)
    requires at + |s| <= |b|
    ensures |r| == |b|
    ensures forall i :: 0 <= i < |b| ==> r[i] == if at <= i < at + |s| then s[i - at] else b[i]
  {
    b[..at] + s + b[at + |s|..]
  }

  // ----- one word -----

  function WordAt(b: seq<byte>, at: nat): u32
    requires at + 4 <= |b|
  {
    var b0: int, b1: int, b2: int, b3: int := b[at], b[at + 1], b[at + 2], b[at + 3];
    b0 + 0x100 * b1 + 0x1_0000 * b2 + 0x100_0000 * b3
  }

  function ByteOf(w: u32, k: nat): byte
    requires k < 4
  {
    if k == 0 then w % 0x100
    else if k == 1 then (w / 0x100) % 0x100
    else if k == 2 then (w / 0x1_0000) % 0x100
    else w / 0x100_0000
  }

  lemma WordOfBytes(w: u32)
    ensures ByteOf(w, 0) + 0x100 * ByteOf(w, 1) + 0x1_0000 * ByteOf(w, 2) + 0x100_0000 * ByteOf(w, 3) == w
  {
    Shift(w);
    Shift(w / 0x100);
    Shift(w / 0x1_0000);
  }

  /** Shifting by one byte. */
  lemma Shift(x: nat)
    ensures x == 0x100 * (x / 0x100) + x % 0x100
    ensures x / 0x100 / 0x100 == x / 0x1_0000 && x / 0x1_0000 / 0x100 == x / 0x100_0000
  {
  }

  /** The first byte of a word is the least significant one. */
  lemma LittleEndian(b: seq<byte>, at: nat)
    requires at + 4 <= |b|
    ensures var w := WordAt(b, at);
            b[at] == w % 256 && b[at + 1] == w / 256 % 256 && b[at + 2] == w / 65536 % 256 && b[at + 3] == w / 16777216
  {
    var w: int := WordAt(b, at);
    var b1: int, b2: int, b3: int := b[at + 1], b[at + 2], b[at + 3];
    Digit(b1 + 0x100 * b2 + 0x1_0000 * b3, b[at]);
    Digit(b2 + 0x100 * b3, b1);
    Digit(b3, b2);
    Shift(w);
  }

  lemma Digit(high: nat, low: byte)
    ensures (low + 0x100 * high) % 0x100 == low && (low + 0x100 * high) / 0x100 == high
  {
  }

  // ----- sequences of words -----

  function ToBytes(w: seq<u32>): (s: seq<byte>)
    ensures |s| == 4 * |w|
  {
    seq(4 * |w|, k requires 0 <= k < 4 * |w| => ByteOf(w[k / 4], k % 4))
  }

  function ToWords(b: seq<byte>): (w: seq<u32>)
    ensures |w| == |b| / 4
  {
    seq(|b| / 4, i requires 0 <= i < |b| / 4 => WordAt(b, 4 * i))
  }

  /** Writing words as bytes over the start of a block replaces exactly those words. */
  lemma WordsOfOverlay(b: Block, w: seq<u32>)
    requires |w| <= BLOCKWORDS
    ensures ToWords(Overlay(b, 0, ToBytes(w))) == w + ToWords(b)[|w|..]
  {
    var r := Overlay(b, 0, ToBytes(w));
    forall i | 0 <= i < BLOCKWORDS
      ensures ToWords(r)[i] == (w + ToWords(b)[|w|..])[i]
    {
      assert ToWords(r)[i] == WordAt(r, 4 * i);
      if i < |w| { WordWritten(b, w, i); }
    }
  }

  lemma WordWritten(b: Block, w: seq<u32>, i: nat)
    requires i < |w| <= BLOCKWORDS
    ensures WordAt(Overlay(b, 0, ToBytes(w)), 4 * i) == w[i]
  {
    hide ByteOf;
    var r := Overlay(b, 0, ToBytes(w));
    forall k | 0 <= k < 4 ensures r[4 * i + k] == ByteOf(w[i], k) {
      ByteIndex(i, k);
    }
    assert r[4 * i + 0] == ByteOf(w[i], 0);
    WordOfBytes(w[i]);
  }

  lemma ByteIndex(i: nat, k: nat)
    requires k < 4
    ensures (4 * i + k) / 4 == i && (4 * i + k) % 4 == k
  {
  }

  /** Word `i` is stored in bytes `4 * i` to `4 * i + 3`, the least significant first. */
  lemma StoredLittleEndian(w: seq<u32>, i: nat)
    requires i < |w|
    ensures var b := ToBytes(w);
            var b0: int, b1: int, b2: int, b3: int := b[4 * i], b[4 * i + 1], b[4 * i + 2], b[4 * i + 3];
            b0 + 256 * b1 + 65536 * b2 + 16777216 * b3 == w[i]
  {
    hide ByteOf;
    ByteIndex(i, 0);
    ByteIndex(i, 1);
    ByteIndex(i, 2);
    ByteIndex(i, 3);
    WordOfBytes(w[i]);
  }

  /** A zeroed block reads as zero words. */
  lemma WordsOfZeros()
    ensures ToWords(Zeros(BLOCKSIZE)) == ZeroWords(BLOCKWORDS)
  {
  }

  /** The word view of a block is faithful: bytes and words determine each other. */
  lemma CastRoundTrip(w: WordBlock)
    ensures |ToBytes(w)| == BLOCKSIZE
    ensures ToWords(ToBytes(w)) == w
  {
    var z := Zeros(BLOCKSIZE);
    assert Overlay(z, 0, ToBytes(w)) == ToBytes(w);
    WordsOfOverlay(z, w);
  }
}
