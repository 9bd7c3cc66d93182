/** Chunked comparison of pixel maps (aperturec-graphics/src/pixel.rs:89-147). */
module PixelCompare {
  import opened Painting

  /** A view of a rectangle of 32-bit pixels, row by row. */
  datatype RawView = RawView(width: nat, rows: seq<seq<Pixel32>>)
  type View = v: RawView | forall i :: 0 <= i < |v.rows| ==> |v.rows[i]| == v.width
    witness RawView(0, [])

  const SIMD_WIDTH := 8

  /** Splits a row into full chunks and a remainder. */
  function Chunks(row: seq<Pixel32>): seq<seq<Pixel32>> {
    seq(|row| / SIMD_WIDTH, k requires 0 <= k < |row| / SIMD_WIDTH =>
      assert (k + 1) * SIMD_WIDTH <= |row|; row[k * SIMD_WIDTH..(k + 1) * SIMD_WIDTH])
  }

  function Remainder(row: seq<Pixel32>): seq<Pixel32> {
    row[|row| / SIMD_WIDTH * SIMD_WIDTH..]
  }

  /** Equal chunks and equal remainders make equal rows. */
  lemma ChunksDetermineRow(a: seq<Pixel32>, b: seq<Pixel32>)
    requires |a| == |b|
    ensures a == b <==> Chunks(a) == Chunks(b) && Remainder(a) == Remainder(b)
  {
    if Chunks(a) == Chunks(b) && Remainder(a) == Remainder(b) {
      forall i | 0 <= i < |a| ensures a[i] == b[i] {
        var k := i / SIMD_WIDTH;
        if k < |a| / SIMD_WIDTH {
          assert Chunks(a)[k][i - k * SIMD_WIDTH] == a[i];
          assert Chunks(b)[k][i - k * SIMD_WIDTH] == b[i];
        } else {
          assert Remainder(a)[i - |a| / SIMD_WIDTH * SIMD_WIDTH] == a[i];
          assert Remainder(b)[i - |a| / SIMD_WIDTH * SIMD_WIDTH] == b[i];
        }
      }
    }
  }

  /** The fast path: chunk by chunk, stopping at the first difference. */
  method RowSimdEq(a: seq<Pixel32>, b: seq<Pixel32>) returns (equal: bool)
    requires |a| == |b|
    ensures equal <==> a == b
  {
    ChunksDetermineRow(a, b);
    var aChunks, bChunks := Chunks(a), Chunks(b);
    for k := 0 to |aChunks|
      invariant aChunks[..k] == bChunks[..k]
    {
      if aChunks[k] != bChunks[k] { return false; }
    }
    equal := Remainder(a) == Remainder(b);
  }

  /** Chunked comparison is equality of size and of every pixel.  `contiguous` says which rows
      are contiguous in memory and so take the fast path. */
  method SimdEq(a: View, b: View, contiguous: nat -> bool) returns (equal: bool)
    ensures equal <==> a == b
  {
    if a.width != b.width || |a.rows| != |b.rows| { return false; }
    equal := true;
    for i := 0 to |a.rows|
      invariant equal <==> a.rows[..i] == b.rows[..i]
    {
      if !equal { return false; }
      if contiguous(i) {
        equal := RowSimdEq(a.rows[i], b.rows[i]);
      } else {
        equal := a.rows[i] == b.rows[i];
      }
    }
  }
}
