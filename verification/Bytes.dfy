/** Bytes and their single-bit updates, as the C code sees a buffer. */
module Bytes {
  import opened Outcomes

  type byte = x: int | 0 <= x < 256

  /** The k-th binary digit of x, from the lowest. */
  predicate Bit(x: nat, k: nat) {
    if k == 0 then x % 2 == 1 else Bit(x / 2, k - 1)
  }

  /** x with its k-th digit set. */
  function Raise(x: nat, k: nat): nat {
    if k == 0 then x - x % 2 + 1 else 2 * Raise(x / 2, k - 1) + x % 2
  }

  /** x with its k-th digit cleared. */
  function Lower(x: nat, k: nat): nat {
    if k == 0 then x - x % 2 else 2 * Lower(x / 2, k - 1) + x % 2
  }

  /** The two updates change digit k and no other. */
  lemma {:induction false} UpdatesOneBit(x: nat, k: nat, j: nat)
    ensures Bit(Raise(x, k), j) == (j == k || Bit(x, j))
    ensures Bit(Lower(x, k), j) == (j != k && Bit(x, j))
  {
    if k == 0 {
      assert Raise(x, k) / 2 == x / 2 && Lower(x, k) / 2 == x / 2;
    } else {
      assert Raise(x, k) / 2 == Raise(x / 2, k - 1) && Raise(x, k) % 2 == x % 2;
      assert Lower(x, k) / 2 == Lower(x / 2, k - 1) && Lower(x, k) % 2 == x % 2;
      if j > 0 {
        UpdatesOneBit(x / 2, k - 1, j - 1);
      }
    }
  }

  ghost function Pow2(n: nat): nat {
    if n == 0 then 1 else 2 * Pow2(n - 1)
  }

  lemma {:induction false} UpdatesFit(x: nat, k: nat, n: nat)
    requires k < n && x < Pow2(n)
    ensures Raise(x, k) < Pow2(n) && Lower(x, k) < Pow2(n)
  {
    var half := Pow2(n - 1);
    assert Pow2(n) == 2 * half && x / 2 < half;
    if k > 0 {
      UpdatesFit(x / 2, k - 1, n - 1);
    }
  }

  /** The low digits of a sum of which one part is a multiple of a power of two. */
  lemma {:induction false} LowBits(f: nat, low: nat, n: nat, k: nat)
    requires k < n
    ensures Bit(f * Pow2(n) + low, k) <==> Bit(low, k)
  {
    var x := f * Pow2(n) + low;
    var half := Pow2(n - 1);
    assert x == 2 * (f * half) + low;
    if k > 0 {
      assert x / 2 == f * half + low / 2;
      LowBits(f, low / 2, n - 1, k - 1);
    }
  }

  lemma ByteWidth()
    ensures Pow2(8) == 256
  {
    assert Pow2(4) == 16;
  }

  /** data[..] with bit k of byte x set or cleared stays a byte. */
  function RaiseByte(x: byte, k: nat): (y: byte)
    requires k < 8
    ensures forall j: nat :: Bit(y, j) == (j == k || Bit(x, j))
  {
    ByteWidth();
    UpdatesFit(x, k, 8);
    assert forall j: nat :: Bit(Raise(x, k), j) == (j == k || Bit(x, j)) by {
      forall j: nat { UpdatesOneBit(x, k, j); }
    }
    Raise(x, k)
  }

  function LowerByte(x: byte, k: nat): (y: byte)
    requires k < 8
    ensures forall j: nat :: Bit(y, j) == (j != k && Bit(x, j))
  {
    ByteWidth();
    UpdatesFit(x, k, 8);
    assert forall j: nat :: Bit(Lower(x, k), j) == (j != k && Bit(x, j)) by {
      forall j: nat { UpdatesOneBit(x, k, j); }
    }
    Lower(x, k)
  }

  const WORD_LIMIT: nat := 0x1_0000_0000

  /** The i-th little-endian 32-bit word of a buffer. */
  function GetWord(data: seq<byte>, i: nat): (w: nat)
    requires 4 * i + 4 <= |data|
    ensures w < WORD_LIMIT
  {
    var b0: int, b1: int, b2: int, b3: int := data[4 * i], data[4 * i + 1], data[4 * i + 2], data[4 * i + 3];
    b0 + 256 * b1 + 65536 * b2 + 16777216 * b3
  }

  /** The buffer with its i-th word set to w. */
  function PutWord(data: seq<byte>, i: nat, w: nat): (out: seq<byte>)
    requires 4 * i + 4 <= |data| && w < WORD_LIMIT
    ensures |out| == |data|
    ensures GetWord(out, i) == w
    ensures forall j: nat :: 4 * j + 4 <= |data| && j != i ==> GetWord(out, j) == GetWord(data, j)
  {
    var w1 := w / 256;
    var w2 := w1 / 256;
    var b0: byte, b1: byte, b2: byte, b3: byte := w % 256, w1 % 256, w2 % 256, w2 / 256;
    data[4 * i := b0][4 * i + 1 := b1][4 * i + 2 := b2][4 * i + 3 := b3]
  }

  /** What readi returns of a file's bytes: at most n from off on, and None (for -1) past the end or on wrap-around. */
  function ReadAt(file: seq<byte>, off: nat, n: nat): (r: Option<seq<byte>>)
    ensures r.None? <==> off > |file| || off + n >= WORD_LIMIT
    ensures r.Some? ==> |r.value| <= n && (|r.value| == n <==> off + n <= |file|)
  {
    if off > |file| || off + n >= WORD_LIMIT then None
    else Some(if off + n <= |file| then file[off..off + n] else file[off..])
  }

  lemma ReadAtIs(file: seq<byte>, off: nat, n: nat)
    requires off < WORD_LIMIT && n < WORD_LIMIT
    ensures ReadAt(file, off, n).None? <==> off > |file| || (off + n) % WORD_LIMIT < off
    ensures ReadAt(file, off, n).Some? ==>
      ReadAt(file, off, n).value == file[off..if off + n > |file| then |file| else off + n]
  {
  }

  /** The bytes of a 32-bit word, least significant first. */
  function WordBytes(w: nat): (b: seq<byte>)
    requires w < WORD_LIMIT
    ensures |b| == 4 && GetWord(b, 0) == w
    ensures var b0: int, b1: int, b2: int, b3: int := b[0], b[1], b[2], b[3];
            b0 + 256 * b1 + 65536 * b2 + 16777216 * b3 == w
  {
    var w1 := w / 256;
    var w2 := w1 / 256;
    [w % 256, w1 % 256, w2 % 256, w2 / 256]
  }

  predicate WordsOk(ws: seq<nat>) {
    forall i :: 0 <= i < |ws| ==> ws[i] < WORD_LIMIT
  }

  function Flat(ws: seq<nat>): (b: seq<byte>)
    requires WordsOk(ws)
    ensures |b| == 4 * |ws|
  {
    if ws == [] then [] else WordBytes(ws[0]) + Flat(ws[1..])
  }

  /** Reading word i back. */
  lemma {:induction false} FlatWord(ws: seq<nat>, i: nat)
    requires WordsOk(ws) && i < |ws|
    ensures GetWord(Flat(ws), i) == ws[i]
  {
    if i > 0 {
      FlatWord(ws[1..], i - 1);
      assert Flat(ws)[4 * i..4 * i + 4] == Flat(ws[1..])[4 * (i - 1)..4 * (i - 1) + 4];
    }
  }

  lemma {:induction false} FlatBytes(ws: seq<nat>, i: nat)
    requires WordsOk(ws) && i < |ws|
    ensures Flat(ws)[4 * i..4 * i + 4] == WordBytes(ws[i])
  {
    if i > 0 {
      FlatBytes(ws[1..], i - 1);
      assert Flat(ws)[4 * i..4 * i + 4] == Flat(ws[1..])[4 * (i - 1)..4 * (i - 1) + 4];
    }
  }
}
