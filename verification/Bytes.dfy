/**
 Byte buffers and the little-endian 32-bit words the ext2 driver keeps in them.
 */
module Bytes {

  type byte = x: int | 0 <= x < 0x100
  type word = x: int | 0 <= x < 0x1_0000_0000

  function Min(a: int, b: int): (m: int)
    ensures m <= a && m <= b && (m == a || m == b)
  {
    if a < b then a else b
  }

  /** What `kmemset(buffer, 0, n)` leaves in a buffer. */
  function Zeros(n: nat): (z: seq<byte>)
    ensures |z| == n
  {
    seq(n, _ => 0)
  }

  /** What `kmemcpy(buffer + at, src, |src|)` leaves in a buffer. */
  function Splice<T>(b: seq<T>, at: nat, src: seq<T>): (r: seq<T>)
    requires at + |src| <= |b|
    ensures |r| == |b|
  {
    b[..at] + src + b[at + |src|..]
  }

  function JoinBytes(b0: int, b1: int, b2: int, b3: int): (w: int)
    ensures 0 <= b0 < 0x100 && 0 <= b1 < 0x100 && 0 <= b2 < 0x100 && 0 <= b3 < 0x100
            ==> 0 <= w < 0x1_0000_0000
  {
    b0 + 0x100 * b1 + 0x1_0000 * b2 + 0x100_0000 * b3
  }

  function WordAt(b: seq<byte>, i: nat): word
    requires 4 * i + 4 <= |b|
  {
    JoinBytes(b[4 * i], b[4 * i + 1], b[4 * i + 2], b[4 * i + 3])
  }

  function ByteOf(w: word, k: nat): byte
    requires k < 4
  {
    if k == 0 then w % 0x100
    else if k == 1 then w / 0x100 % 0x100
    else if k == 2 then w / 0x100 / 0x100 % 0x100
    else w / 0x100 / 0x100 / 0x100
  }

  function EncodeWords(ws: seq<word>): (b: seq<byte>)
    ensures |b| == 4 * |ws|
  {
    seq(4 * |ws|, k requires 0 <= k < 4 * |ws| => ByteOf(ws[k / 4], k % 4))
  }

  /** The bytes of a word, the least significant first, make it up again. */
  lemma WordRoundTrip(w: word)
    ensures JoinBytes(ByteOf(w, 0), ByteOf(w, 1), ByteOf(w, 2), ByteOf(w, 3)) == w
    ensures w == ByteOf(w, 0) + 0x100 * ByteOf(w, 1) + 0x1_0000 * ByteOf(w, 2) + 0x100_0000 * ByteOf(w, 3)
  {
  }

  lemma EncodedByte(ws: seq<word>, i: nat, k: nat)
    requires i < |ws| && k < 4
    ensures EncodeWords(ws)[4 * i + k] == ByteOf(ws[i], k)
  {
    assert (4 * i + k) / 4 == i && (4 * i + k) % 4 == k;
  }

  /** Copying words into a table block changes exactly the copied entries. */
  lemma SplicedWords(b: seq<byte>, at: nat, ws: seq<word>, j: nat)
    requires 4 * (at + |ws|) <= |b| && 4 * j + 4 <= |b|
    ensures WordAt(Splice(b, 4 * at, EncodeWords(ws)), j)
         == if at <= j < at + |ws| then ws[j - at] else WordAt(b, j)
  {
    if at <= j < at + |ws| {
      var i := j - at;
      EncodedByte(ws, i, 0);
      EncodedByte(ws, i, 1);
      EncodedByte(ws, i, 2);
      EncodedByte(ws, i, 3);
      WordRoundTrip(ws[i]);
    }
  }

  /** A zeroed table block holds only null pointers. */
  lemma ZeroWords(n: nat, j: nat)
    requires 4 * j + 4 <= n
    ensures WordAt(Zeros(n), j) == 0
  {
  }
}
