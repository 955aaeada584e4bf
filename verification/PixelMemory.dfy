/** Images in memory: rows of pixels, each row followed by padding, and what the kernels read
    back from them. */
module PixelMemory {
  import opened Bytes
  import opened Sequences
  import opened LineStatistics
  import opened RowColStats

  // ---------------------------------------------------------------------------
  // Pieces of equal length
  // ---------------------------------------------------------------------------

  predicate AllOfLength(parts: seq<seq<Byte>>, n: nat) {
    forall i :: 0 <= i < |parts| ==> |parts[i]| == n
  }

  lemma {:induction false} EqualPieces(parts: seq<seq<Byte>>, n: nat)
    requires AllOfLength(parts, n)
    ensures |Concat(parts)| == |parts| * n
  {
    if parts == [] {
    } else {
      var k := |parts| - 1;
      EqualPieces(parts[..k], n);
      OneMore(k, n);
    }
  }

  lemma OneMore(k: nat, n: nat)
    ensures (k + 1) * n == k * n + n
  {
  }

  /** Byte o of piece i. */
  lemma {:induction false} ByteOfPiece(parts: seq<seq<Byte>>, n: nat, i: nat, o: nat)
    requires AllOfLength(parts, n) && i < |parts| && o < n
    ensures i * n + o < |Concat(parts)| && Concat(parts)[i * n + o] == parts[i][o]
  {
    var last := |parts| - 1;
    EqualPieces(parts[..last], n);
    if i == last {
    } else {
      ByteOfPiece(parts[..last], n, i, o);
    }
  }

  // ---------------------------------------------------------------------------
  // An image in memory
  // ---------------------------------------------------------------------------

  /** The bytes of every pixel, row by row, and behind every row its padding; what lies behind
      the image does not matter. */
  datatype Memory = Memory(pixels: seq<seq<seq<Byte>>>, padding: seq<seq<Byte>>, rest: seq<Byte>)

  ghost predicate IsMemory(m: Memory, rows: nat, cols: nat, size: nat, pad: nat) {
    && |m.pixels| == |m.padding| == rows && AllOfLength(m.padding, pad)
    && forall y :: 0 <= y < rows ==> |m.pixels[y]| == cols && AllOfLength(m.pixels[y], size)
  }

  function Rows(m: Memory): (r: seq<seq<Byte>>)
    requires |m.pixels| == |m.padding|
    ensures |r| == |m.pixels|
    ensures forall y :: 0 <= y < |r| ==> r[y] == Concat(m.pixels[y]) + m.padding[y]
  {
    seq(|m.pixels|, y requires 0 <= y < |m.pixels| => Concat(m.pixels[y]) + m.padding[y])
  }

  function InMemory(m: Memory): seq<Byte>
    requires |m.pixels| == |m.padding|
  {
    Concat(Rows(m)) + m.rest
  }

  function ImageIn(m: Memory, cols: nat, pad: nat, f: PixelFormat): Image
    requires |m.pixels| == |m.padding|
  {
    Image(|m.pixels|, cols, cols * BytesPerPixel(f) + pad, f, InMemory(m))
  }

  lemma RowsHaveStride(m: Memory, rows: nat, cols: nat, size: nat, pad: nat)
    requires IsMemory(m, rows, cols, size, pad)
    ensures AllOfLength(Rows(m), cols * size + pad)
  {
    forall y | 0 <= y < rows ensures |Rows(m)[y]| == cols * size + pad {
      EqualPieces(m.pixels[y], size);
    }
  }

  lemma IsImageIn(m: Memory, rows: nat, cols: nat, pad: nat, f: PixelFormat)
    requires IsMemory(m, rows, cols, BytesPerPixel(f), pad)
    ensures IsImage(ImageIn(m, cols, pad, f))
  {
    RowsHaveStride(m, rows, cols, BytesPerPixel(f), pad);
    EqualPieces(Rows(m), cols * BytesPerPixel(f) + pad);
  }

  /** The kernels find every byte of every pixel. */
  lemma ByteFound(m: Memory, rows: nat, cols: nat, pad: nat, f: PixelFormat, x: nat, y: nat, o: nat)
    requires IsMemory(m, rows, cols, BytesPerPixel(f), pad)
    requires x < cols && y < rows && o < BytesPerPixel(f)
    ensures IsImage(ImageIn(m, cols, pad, f))
    ensures ByteAt(ImageIn(m, cols, pad, f), x, y, o) == m.pixels[y][x][o] as nat
  {
    var size, stride := BytesPerPixel(f), cols * BytesPerPixel(f) + pad;
    IsImageIn(m, rows, cols, pad, f);
    RowsHaveStride(m, rows, cols, size, pad);
    ByteOfPiece(m.pixels[y], size, x, o);
    EqualPieces(m.pixels[y], size);
    ByteOfPiece(Rows(m), stride, y, x * size + o);
    PixelInData(ImageIn(m, cols, pad, f), x, y);
  }

  // ---------------------------------------------------------------------------
  // Grey images
  // ---------------------------------------------------------------------------

  /** The low byte first where there are two. */
  function MonoBytes(f: PixelFormat, v: nat): (b: seq<Byte>)
    requires (f == Mono8 && v < 0x100) || (f == Mono16 && v < 0x1_0000)
    ensures |b| == BytesPerPixel(f)
  {
    if f == Mono8 then [v as Byte] else [(v % 0x100) as Byte, (v / 0x100) as Byte]
  }

  ghost predicate HoldsMono(m: Memory, f: PixelFormat, g: Grid, rows: nat, cols: nat)
    requires IsGrid(g, rows, cols)
  {
    && |m.pixels| == rows
    && forall y, x :: 0 <= y < rows && 0 <= x < cols ==>
         && |m.pixels[y]| == cols
         && ((f == Mono8 && g[y][x] < 0x100) || (f == Mono16 && g[y][x] < 0x1_0000))
         && m.pixels[y][x] == MonoBytes(f, g[y][x])
  }

  /** Samples laid out in memory are read back, whatever the padding holds. */
  lemma MonoReadBack(m: Memory, rows: nat, cols: nat, pad: nat, f: PixelFormat, g: Grid)
    requires IsMemory(m, rows, cols, BytesPerPixel(f), pad)
    requires IsGrid(g, rows, cols) && HoldsMono(m, f, g, rows, cols)
    ensures IsImage(ImageIn(m, cols, pad, f)) && MonoGrid(ImageIn(m, cols, pad, f)) == g
  {
    hide ByteAt, InMemory;
    IsImageIn(m, rows, cols, pad, f);
    var im := ImageIn(m, cols, pad, f);
    forall y, x | 0 <= y < rows && 0 <= x < cols ensures MonoPixel(im, x, y) == g[y][x] {
      ByteFound(m, rows, cols, pad, f, x, y, 0);
      if f == Mono16 { ByteFound(m, rows, cols, pad, f, x, y, 1); }
    }
    SameGrid(MonoGrid(im), g, rows, cols);
  }

  lemma SameGrid(a: Grid, b: Grid, rows: nat, cols: nat)
    requires IsGrid(a, rows, cols) && IsGrid(b, rows, cols)
    requires forall y, x :: 0 <= y < rows && 0 <= x < cols ==> a[y][x] == b[y][x]
    ensures a == b
  {
    forall y | 0 <= y < rows ensures a[y] == b[y] {
    }
  }

  // ---------------------------------------------------------------------------
  // Colour images
  // ---------------------------------------------------------------------------

  /** Blue, green, red or the other way round; a fourth byte is not used. */
  function ColorBytes(f: PixelFormat, red: Byte, green: Byte, blue: Byte, unused: Byte): (b: seq<Byte>)
    requires !f.Mono8? && !f.Mono16?
    ensures |b| == BytesPerPixel(f)
  {
    match f
    case BGR => [blue, green, red]
    case BGRU => [blue, green, red, unused]
    case RGB => [red, green, blue]
    case RGBU => [red, green, blue, unused]
  }

  type Plane = seq<seq<Byte>>

  function Samples(p: Plane): (g: Grid)
    ensures |g| == |p| && forall y :: 0 <= y < |p| ==> |g[y]| == |p[y]|
    ensures forall y, x :: 0 <= y < |p| && 0 <= x < |p[y]| ==> g[y][x] == p[y][x] as nat
  {
    seq(|p|, y requires 0 <= y < |p| => seq(|p[y]|, x requires 0 <= x < |p[y]| => p[y][x] as nat))
  }

  predicate IsPlane(p: Plane, rows: nat, cols: nat) {
    |p| == rows && AllOfLength(p, cols)
  }

  /** The planes of an image, and its unused bytes if it has any. */
  datatype Planes = Planes(red: Plane, green: Plane, blue: Plane, unused: Plane)

  predicate ArePlanes(p: Planes, rows: nat, cols: nat) {
    IsPlane(p.red, rows, cols) && IsPlane(p.green, rows, cols) && IsPlane(p.blue, rows, cols)
    && IsPlane(p.unused, rows, cols)
  }

  ghost predicate HoldsColor(m: Memory, f: PixelFormat, p: Planes, rows: nat, cols: nat)
    requires !f.Mono8? && !f.Mono16? && ArePlanes(p, rows, cols)
  {
    && |m.pixels| == rows
    && forall y, x :: 0 <= y < rows && 0 <= x < cols ==>
         && |m.pixels[y]| == cols
         && m.pixels[y][x] == ColorBytes(f, p.red[y][x], p.green[y][x], p.blue[y][x], p.unused[y][x])
  }

  /** The three channels are read back, whatever padding and unused bytes hold, and grey is a
      tenth of blue, six times green and three times red. */
  lemma ColorReadBack(m: Memory, rows: nat, cols: nat, pad: nat, f: PixelFormat, p: Planes)
    requires !f.Mono8? && !f.Mono16? && ArePlanes(p, rows, cols)
    requires IsMemory(m, rows, cols, BytesPerPixel(f), pad) && HoldsColor(m, f, p, rows, cols)
    ensures var im := ImageIn(m, cols, pad, f);
      && IsImage(im) && ChannelGrid(im, RED) == Samples(p.red)
      && ChannelGrid(im, GREEN) == Samples(p.green) && ChannelGrid(im, BLUE) == Samples(p.blue)
      && forall y, x :: 0 <= y < rows && 0 <= x < cols ==>
           ChannelGrid(im, GREY)[y][x]
           == (p.blue[y][x] as nat + 6 * (p.green[y][x] as nat) + 3 * (p.red[y][x] as nat)) / 10
  {
    hide ByteAt, InMemory;
    IsImageIn(m, rows, cols, pad, f);
    var im := ImageIn(m, cols, pad, f);
    forall y, x | 0 <= y < rows && 0 <= x < cols
      ensures ColorPixel(im, x, y)[RED] == p.red[y][x] as nat
      ensures ColorPixel(im, x, y)[GREEN] == p.green[y][x] as nat
      ensures ColorPixel(im, x, y)[BLUE] == p.blue[y][x] as nat
      ensures ColorPixel(im, x, y)[GREY]
           == (p.blue[y][x] as nat + 6 * (p.green[y][x] as nat) + 3 * (p.red[y][x] as nat)) / 10
    {
      ByteFound(m, rows, cols, pad, f, x, y, 0);
      ByteFound(m, rows, cols, pad, f, x, y, 1);
      ByteFound(m, rows, cols, pad, f, x, y, 2);
    }
    SameGrid(ChannelGrid(im, RED), Samples(p.red), rows, cols);
    SameGrid(ChannelGrid(im, GREEN), Samples(p.green), rows, cols);
    SameGrid(ChannelGrid(im, BLUE), Samples(p.blue), rows, cols);
  }

  /** A kernel given the other kind of image reads zeros. */
  lemma OtherFormatsReadZero(im: Image, x: nat, y: nat)
    requires IsImage(im) && x < im.cols && y < im.rows
    ensures !im.format.Mono8? && !im.format.Mono16? ==> MonoGrid(im)[y][x] == 0
    ensures im.format.Mono8? || im.format.Mono16? ==> forall c :: 0 <= c < 4 ==> ChannelGrid(im, c)[y][x] == 0
  {
  }
}
