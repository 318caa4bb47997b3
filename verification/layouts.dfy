/** The geometry of a strided pixel buffer: pixel (x, y) occupies the `bpp` bytes that start at
    `y * rowBytes + x * bpp`; bytes past `width * bpp` in a row are padding. */
module Layouts {

  import opened Arith
  import opened Rects

  datatype Layout = Layout(width: nat, height: nat, rowBytes: nat, bpp: nat)

  /** Every row has room for its pixels. */
  predicate WellFormed(l: Layout)
  {
    l.bpp > 0 && l.width * l.bpp <= l.rowBytes
  }

  /** SkImageInfo::computeByteSize: the last row needs no padding. */
  function ByteSize(l: Layout): nat
  {
    if l.height == 0 then 0 else (l.height - 1) * l.rowBytes + l.width * l.bpp
  }

  function PixelOffset(l: Layout, x: int, y: int): int
  {
    y * l.rowBytes + x * l.bpp
  }

  /** The row, the column and the byte within the pixel that buffer byte i falls on. */
  function RowOf(l: Layout, i: int): int
    requires l.rowBytes > 0
  {
    i / l.rowBytes
  }

  function ColOf(l: Layout, i: int): int
    requires l.rowBytes > 0 && l.bpp > 0
  {
    i % l.rowBytes / l.bpp
  }

  function ByteOf(l: Layout, i: int): int
    requires l.rowBytes > 0 && l.bpp > 0
  {
    i % l.rowBytes % l.bpp
  }

  /** Buffer byte i belongs to a pixel (not row padding) whose coordinates lie in r. */
  predicate InPixelOf(l: Layout, r: Rect, i: int)
  {
    WellFormed(l) && l.rowBytes > 0 && 0 <= i && i % l.rowBytes < l.width * l.bpp
    && Contains(r, ColOf(l, i), RowOf(l, i))
  }

  /** Every pixel of the image lies inside a buffer of ByteSize bytes. */
  lemma PixelInBuffer(l: Layout, x: int, y: int)
    requires WellFormed(l) && 0 <= x < l.width && 0 <= y < l.height
    ensures 0 <= PixelOffset(l, x, y) && PixelOffset(l, x, y) + l.bpp <= ByteSize(l)
  {
    MulMonotone(y, l.height - 1, l.rowBytes);
    MulMonotone(x + 1, l.width, l.bpp);
    MulMonotone(0, y, l.rowBytes);
    MulMonotone(0, x, l.bpp);
  }

  /** Byte k of pixel (x, y) is found back at row y, column x, byte k. */
  lemma DecomposeOffset(l: Layout, x: int, y: int, k: int)
    requires WellFormed(l) && 0 <= x < l.width && 0 <= y && 0 <= k < l.bpp
    ensures l.rowBytes > 0
    ensures var i := PixelOffset(l, x, y) + k;
      RowOf(l, i) == y && ColOf(l, i) == x && ByteOf(l, i) == k && i % l.rowBytes < l.width * l.bpp
  {
    MulSucc(x, l.bpp);
    MulMonotone(x + 1, l.width, l.bpp);
    MulMonotone(0, x, l.bpp);
    var within := x * l.bpp + k;
    assert 0 <= within < l.width * l.bpp <= l.rowBytes;
    var i := PixelOffset(l, x, y) + k;
    assert i == y * l.rowBytes + within;
    DivModUnique(i, l.rowBytes, y, within);
    DivModUnique(within, l.bpp, x, k);
  }

  /** Every byte lies at its row, column and byte-in-pixel. */
  lemma RecomposeOffset(l: Layout, i: int)
    requires l.rowBytes > 0 && l.bpp > 0 && 0 <= i
    ensures i == PixelOffset(l, ColOf(l, i), RowOf(l, i)) + ByteOf(l, i)
    ensures 0 <= ByteOf(l, i) < l.bpp && 0 <= RowOf(l, i) && 0 <= ColOf(l, i)
  {
    var w := i % l.rowBytes;
    assert i == RowOf(l, i) * l.rowBytes + w;
    assert w == ColOf(l, i) * l.bpp + ByteOf(l, i);
  }

  // ---------------------------------------------------------------------------------------------
  // Rows of pixels packed without padding

  /** The bytes of a row of pixels, one after the other. */
  function Flatten<T>(ps: seq<seq<T>>): (bytes: seq<T>)
    ensures |ps| == 0 ==> bytes == []
  {
    if |ps| == 0 then [] else ps[0] + Flatten(ps[1..])
  }

  /** Pixel i of a packed row of bpp-byte pixels. */
  function PixelOf<T>(bytes: seq<T>, bpp: nat, i: nat): seq<T>
    requires (i + 1) * bpp <= |bytes|
  {
    bytes[i * bpp..(i + 1) * bpp]
  }

  /** Flattening pixels of bpp bytes each gives a row in which pixel i is the i-th pixel. */
  lemma {:induction false} FlattenPixel<T>(ps: seq<seq<T>>, bpp: nat, i: nat)
    requires forall j | 0 <= j < |ps| :: |ps[j]| == bpp
    requires i < |ps|
    ensures |Flatten(ps)| == |ps| * bpp
    ensures (i + 1) * bpp <= |Flatten(ps)| && PixelOf(Flatten(ps), bpp, i) == ps[i]
  {
    FlattenLength(ps, bpp);
    var rest := ps[1..];
    var whole := Flatten(ps);
    assert whole == ps[0] + Flatten(rest);
    if i == 0 {
      assert whole[0..bpp] == ps[0];
    } else {
      FlattenPixel(rest, bpp, i - 1);
      var tail := Flatten(rest);
      var lo := (i - 1) * bpp;
      MulSucc(i - 1, bpp);
      MulSucc(i, bpp);
      assert tail[lo..lo + bpp] == rest[i - 1];
      SliceOfConcat(ps[0], tail, lo + bpp, lo + bpp + bpp);
    }
  }

  /** A slice that lies past the first part of a concatenation is a slice of the second part. */
  lemma SliceOfConcat<T>(p: seq<T>, q: seq<T>, lo: int, hi: int)
    requires |p| <= lo <= hi <= |p| + |q|
    ensures (p + q)[lo..hi] == q[lo - |p|..hi - |p|]
  {
  }

  lemma {:induction false} FlattenLength<T>(ps: seq<seq<T>>, bpp: nat)
    requires forall j | 0 <= j < |ps| :: |ps[j]| == bpp
    ensures |Flatten(ps)| == |ps| * bpp
  {
    if |ps| > 0 {
      FlattenLength(ps[1..], bpp);
      assert |ps| * bpp == bpp + (|ps| - 1) * bpp;
    }
  }

  /** A pixel that ends within the first m bytes is the same pixel of the prefix. */
  lemma PixelOfPrefix<T>(a: seq<T>, bpp: nat, i: nat, m: nat)
    requires (i + 1) * bpp <= m <= |a|
    ensures PixelOf(a[..m], bpp, i) == PixelOf(a, bpp, i)
  {
    MulMonotone(0, i, bpp);
    MulSucc(i, bpp);
  }

  /** A row of n pixels is its first n - 1 pixels followed by its last one. */
  lemma SplitLastPixel<T>(a: seq<T>, bpp: nat, n: nat)
    requires n > 0 && |a| == n * bpp
    ensures 0 <= (n - 1) * bpp && n * bpp <= |a|
    ensures a == a[..(n - 1) * bpp] + PixelOf(a, bpp, n - 1)
  {
    MulSucc(n - 1, bpp);
    MulMonotone(0, n - 1, bpp);
  }

  /** The first n pixels of a and b agree. */
  ghost predicate PixelsEqual<T>(a: seq<T>, b: seq<T>, bpp: nat, n: nat)
  {
    forall i: nat | i < n :: (i + 1) * bpp <= |a| && (i + 1) * bpp <= |b| && PixelOf(a, bpp, i) == PixelOf(b, bpp, i)
  }

  /** Rows that agree on n pixels agree on their first k pixels' bytes, for every k up to n. */
  lemma {:induction false} PrefixBytesEqual<T>(a: seq<T>, b: seq<T>, bpp: nat, n: nat, k: nat)
    requires k <= n && |a| == n * bpp && |b| == n * bpp && PixelsEqual(a, b, bpp, n)
    ensures k * bpp <= |a|
    ensures a[..k * bpp] == b[..k * bpp]
  {
    MulMonotone(k, n, bpp);
    if k > 0 {
      PrefixBytesEqual(a, b, bpp, n, k - 1);
      SplitLastPixel(a[..k * bpp], bpp, k);
      SplitLastPixel(b[..k * bpp], bpp, k);
      PixelOfPrefix(a, bpp, k - 1, k * bpp);
      PixelOfPrefix(b, bpp, k - 1, k * bpp);
      assert PixelOf(a, bpp, k - 1) == PixelOf(b, bpp, k - 1);
      assert a[..k * bpp][..(k - 1) * bpp] == a[..(k - 1) * bpp];
      assert b[..k * bpp][..(k - 1) * bpp] == b[..(k - 1) * bpp];
    }
  }

  /** Two rows of n pixels of bpp bytes each are equal when every pixel is. */
  lemma RowsEqualByPixel<T>(a: seq<T>, b: seq<T>, bpp: nat, n: nat)
    requires |a| == n * bpp && |b| == n * bpp && PixelsEqual(a, b, bpp, n)
    ensures a == b
  {
    PrefixBytesEqual(a, b, bpp, n, n);
    assert a == a[..n * bpp] && b == b[..n * bpp];
  }
}
