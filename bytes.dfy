/** Byte sequences and the Python sequence operations the codec is built from. */
module Bytes {

  /** An unsigned 8-bit value, the element of a Python `bytes` object and of a `uint8` array. */
  type Byte = b: int | 0 <= b < 256

  /** Python's slice `s[lo:hi]` for non-negative bounds: both bounds are clamped to
      the length, and the slice is empty when `hi <= lo`; it never fails. */
  function Slice<T>(s: seq<T>, lo: nat, hi: nat): (r: seq<T>)
    ensures hi <= |s| && lo <= hi ==> |r| == hi - lo
    ensures |s| < hi && lo <= |s| ==> |r| == |s| - lo
    ensures hi <= lo || |s| <= lo ==> r == []
    ensures forall i :: 0 <= i < |r| ==> r[i] == s[lo + i]
  {
    if hi <= lo || |s| <= lo then [] else s[lo..if hi <= |s| then hi else |s|]
  }

  /** Python's `b"\0" * n`: `n` zero bytes, and no bytes at all when `n` is negative. */
  function Zeros(n: int): (z: seq<Byte>)
    ensures n >= 0 ==> |z| == n
    ensures n < 0 ==> z == []
    ensures forall i :: 0 <= i < |z| ==> z[i] == 0
  {
    if n <= 0 then [] else seq(n, _ => 0)
  }

  /** The concatenation of the pieces, in order. */
  function Concat<T>(ss: seq<seq<T>>): seq<T>
  {
    if ss == [] then [] else ss[0] + Concat(ss[1..])
  }

  /** `s` cut into `n` consecutive pieces of `w` elements each. */
  function Chunks<T>(s: seq<T>, n: nat, w: nat): (r: seq<seq<T>>)
    requires |s| == n * w
    ensures |r| == n
    ensures forall i :: 0 <= i < n ==> |r[i]| == w
  {
    if n == 0 then [] else [s[..w]] + Chunks(s[w..], n - 1, w)
  }

  /** Element `j` of piece `i` is element `i * w + j` of the whole. */
  lemma {:induction false} ChunkAt<T>(s: seq<T>, n: nat, w: nat, i: nat, j: nat)
    requires |s| == n * w && i < n && j < w
    ensures i * w + j < |s|
    ensures Chunks(s, n, w)[i][j] == s[i * w + j]
  {
    if i > 0 {
      ChunkAt(s[w..], n - 1, w, i - 1, j);
      assert (i - 1) * w + j + w == i * w + j;
    }
  }

  /** Taking the first of `n > 0` pieces of width `w` leaves `n - 1` pieces. */
  lemma SplitFirstChunk(len: nat, n: nat, w: nat)
    requires len == n * w && n > 0
    ensures w <= len && len - w == (n - 1) * w
  {
    assert n * w == (n - 1) * w + w;
  }

  /** Concatenating the pieces gives back the whole. */
  lemma {:induction false} ConcatChunks<T>(s: seq<T>, n: nat, w: nat)
    requires |s| == n * w
    ensures Concat(Chunks(s, n, w)) == s
  {
    if n > 0 {
      SplitFirstChunk(|s|, n, w);
      var tail := s[w..];
      ConcatChunks(tail, n - 1, w);
      var cs := Chunks(s, n, w);
      assert cs[0] == s[..w] && cs[1..] == Chunks(tail, n - 1, w);
      assert Concat(cs) == cs[0] + Concat(cs[1..]);
      assert s == s[..w] + tail;
    }
  }

  /** Pieces of equal width `w`, once concatenated, cut back into the same pieces. */
  lemma {:induction false} ChunksConcat<T>(ss: seq<seq<T>>, w: nat)
    requires forall i :: 0 <= i < |ss| ==> |ss[i]| == w
    ensures |Concat(ss)| == |ss| * w
    ensures Chunks(Concat(ss), |ss|, w) == ss
  {
    if ss != [] {
      var tail := ss[1..];
      ChunksConcat(tail, w);
      var whole := Concat(ss);
      assert whole == ss[0] + Concat(tail);
      SplitFirstChunk(|ss| * w, |ss|, w);
      assert |whole| == |ss| * w;
      assert whole[..w] == ss[0];
      assert whole[w..] == Concat(tail);
      assert Chunks(whole, |ss|, w) == [ss[0]] + Chunks(Concat(tail), |tail|, w);
      assert ss == [ss[0]] + tail;
    }
  }
}
